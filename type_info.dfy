/*******************************************************************************
 *  TypeInfos: TypeInfo.GetRankString, the "[*]" / "[,,]" suffix of an
 *  array type's name, and TypeInfo.IsAssignableFrom over the ordered type
 *  universe ImplementInterface walks.
 *******************************************************************************/

module TypeInfos {
  import opened Common
  import Extensions

  /*****************************************************************************
   *  GetRankString
   *****************************************************************************/

  /**
   * GetRankString(rank): IndexOutOfRange for a rank that is not positive;
   * "[*]" for rank 1; otherwise rank - 1 commas between brackets.
   */
  function GetRankString(rank: int32): (r: Result<string>)
    ensures r.Err? <==> rank <= 0
    ensures r.Err? ==> r.error == IndexOutOfRange
    ensures r.Ok? ==> |r.value| >= 3 && r.value[0] == '[' && r.value[|r.value| - 1] == ']'
  {
    if rank <= 0 then Err(IndexOutOfRange)
    else if rank == 1 then Ok("[*]")
    else Ok("[" + seq(rank - 1, _ => ',') + "]")
  }

  /** The rank a rank suffix stands for: 1 for "[*]", one more than its commas for "[,…]". */
  function RankOf(s: string): Option<nat>
  {
    if s == "[*]" then Some(1)
    else if |s| >= 3 && s[0] == '[' && s[|s| - 1] == ']' && forall i :: 1 <= i < |s| - 1 ==> s[i] == ','
    then Some(|s| - 1)
    else None
  }

  /** Every rank string reads back as its rank, so different ranks give different strings. */
  lemma RankStringReadsBack(rank: int32)
    requires rank >= 1
    ensures RankOf(GetRankString(rank).value) == Some(rank as nat)
  {
    var s := GetRankString(rank).value;
    if rank > 1 {
      assert s[1] == ',';
      assert forall i :: 1 <= i < |s| - 1 ==> s[i] == ',';
    }
  }

  /*****************************************************************************
   *  IsAssignableFrom
   *****************************************************************************/

  /** Type.IsSubclassOf: `t` is a proper ancestor of `c` on its base chain. */
  predicate DerivesFrom(u: map<nat, Extensions.TypeDesc>, c: nat, t: nat)
    requires Extensions.Ordered(u) && c in u
    decreases c
  {
    u[c].baseType.Some? &&
    (u[c].baseType.value == t || DerivesFrom(u, u[c].baseType.value, t))
  }

  /**
   * When a value of type c can be stored in a variable of type t: c is t,
   * c derives from t, t is an interface c implements, or t is a generic
   * parameter every one of whose constraints c is assignable to.  Nothing
   * is assignable from null.
   */
  predicate Assignable(u: map<nat, Extensions.TypeDesc>, t: nat, c: Option<nat>)
    requires Extensions.Ordered(u) && t in u && (c.Some? ==> c.value in u)
    decreases t
  {
    c.Some? &&
    (t == c.value || DerivesFrom(u, c.value, t) ||
     (if u[t].isInterface then Extensions.Implements(u, c.value, t)
      else
        u[t].isGenericParameter &&
        forall k | 0 <= k < |u[t].constraints| :: Assignable(u, u[t].constraints[k], c)))
  }

  /**
   * IsAssignableFrom(typeInfo): false for null, true for the type itself
   * and its subclasses; for an interface, whether typeInfo implements it;
   * for a generic parameter, a check of each constraint in turn.
   */
  method IsAssignableFrom(u: map<nat, Extensions.TypeDesc>, target: nat, typeInfo: Option<nat>) returns (b: bool)
    requires Extensions.Ordered(u) && target in u && (typeInfo.Some? ==> typeInfo.value in u)
    ensures b == Assignable(u, target, typeInfo)
    decreases target
  {
    if typeInfo.None? {
      return false;
    }
    if target == typeInfo.value {
      return true;
    }
    if DerivesFrom(u, typeInfo.value, target) {
      return true;
    }
    if u[target].isInterface {
      b := Extensions.ImplementInterface(u, typeInfo.value, target);
      return;
    } else if u[target].isGenericParameter {
      var constraints := u[target].constraints;
      var i := 0;
      while i < |constraints|
        invariant 0 <= i <= |constraints|
        invariant forall k | 0 <= k < i :: Assignable(u, constraints[k], typeInfo)
      {
        var ok := IsAssignableFrom(u, constraints[i], typeInfo);
        if !ok {
          return false;
        }
        i := i + 1;
      }
      return true;
    }
    return false;
  }

  /** A proper ancestor comes earlier in the universe, so no type is its own subclass. */
  lemma {:induction false} DerivesFromIsBelow(u: map<nat, Extensions.TypeDesc>, c: nat, t: nat)
    requires Extensions.Ordered(u) && c in u
    ensures DerivesFrom(u, c, t) ==> t < c
    decreases c
  {
    if u[c].baseType.Some? {
      DerivesFromIsBelow(u, u[c].baseType.value, t);
    }
  }

  /** The subclass relation is transitive. */
  lemma {:induction false} DerivesFromTransitive(u: map<nat, Extensions.TypeDesc>, c: nat, b: nat, a: nat)
    requires Extensions.Ordered(u) && c in u && b in u
    requires DerivesFrom(u, c, b) && DerivesFrom(u, b, a)
    ensures DerivesFrom(u, c, a)
    decreases c
  {
    if u[c].baseType.value != b {
      DerivesFromTransitive(u, u[c].baseType.value, b, a);
    }
  }

  /**
   * The cases IsAssignableFrom accepts: never null, always the type itself,
   * every subclass, and every type implementing an interface; for a class
   * that is neither an interface nor a generic parameter, exactly itself
   * and its subclasses.
   */
  lemma AssignableCases(u: map<nat, Extensions.TypeDesc>, t: nat, c: nat)
    requires Extensions.Ordered(u) && t in u && c in u
    ensures !Assignable(u, t, None)
    ensures Assignable(u, t, Some(t))
    ensures DerivesFrom(u, c, t) ==> Assignable(u, t, Some(c))
    ensures u[t].isInterface && Extensions.Implements(u, c, t) ==> Assignable(u, t, Some(c))
    ensures !u[t].isInterface && !u[t].isGenericParameter ==>
      (Assignable(u, t, Some(c)) <==> c == t || DerivesFrom(u, c, t))
  {
  }

  /** Among classes, assignability is transitive: it follows the base chains. */
  lemma ClassAssignableTransitive(u: map<nat, Extensions.TypeDesc>, a: nat, b: nat, c: nat)
    requires Extensions.Ordered(u) && a in u && b in u && c in u
    requires !u[a].isInterface && !u[a].isGenericParameter
    requires !u[b].isInterface && !u[b].isGenericParameter
    requires Assignable(u, a, Some(b)) && Assignable(u, b, Some(c))
    ensures Assignable(u, a, Some(c))
  {
    if c != b && b != a {
      DerivesFromTransitive(u, c, b, a);
    }
  }
}
