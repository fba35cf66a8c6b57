/*******************************************************************************
 *  DataMemberAttributes: the back-ported DataMemberAttribute, a bag of
 *  serialization settings whose Name setter also records that the name was
 *  set explicitly and whose Order setter refuses a negative order.
 *******************************************************************************/

module DataMemberAttributes {
  import opened Common

  class DataMemberAttribute {
    /** Name: null until set. */
    var name: Option<string>
    var isNameSetExplicitly: bool
    /** Order: -1, "unordered", until set. */
    var order: int32
    var isRequired: bool
    var emitDefaultValue: bool

    /** The order is -1 or a value the setter accepted. */
    predicate Valid()
      reads this
    {
      order >= -1
    }

    /** DataMemberAttribute(): no name, not set explicitly, order -1, not required, defaults not emitted. */
    constructor ()
      ensures Valid()
      ensures name == None && !isNameSetExplicitly && order == -1 && !isRequired && !emitDefaultValue
    {
      name := None;
      isNameSetExplicitly := false;
      order := -1;
      isRequired := false;
      emitDefaultValue := false;
    }

    /** The Order getter: -1 or a value that is not negative. */
    function Order(): (r: int32)
      requires Valid()
      reads this
      ensures r == -1 || r >= 0
    {
      order
    }

    /** The Name setter: stores the value and records that the name was set explicitly. */
    method SetName(value: Option<string>)
      requires Valid()
      modifies this
      ensures Valid()
      ensures name == value && isNameSetExplicitly
      ensures order == old(order) && isRequired == old(isRequired) && emitDefaultValue == old(emitDefaultValue)
    {
      name := value;
      isNameSetExplicitly := true;
    }

    /** The Order setter: InvalidDataContract for a negative value, which leaves everything as it was. */
    method SetOrder(value: int32) returns (r: Result<()>)
      requires Valid()
      modifies this
      ensures Valid()
      ensures value < 0 ==> r == Err(InvalidDataContract) && unchanged(this)
      ensures value >= 0 ==> r == Ok(()) && order == value
      ensures name == old(name) && isNameSetExplicitly == old(isNameSetExplicitly)
      ensures isRequired == old(isRequired) && emitDefaultValue == old(emitDefaultValue)
    {
      if value < 0 {
        return Err(InvalidDataContract);
      }
      order := value;
      r := Ok(());
    }

    /** The IsRequired setter. */
    method SetIsRequired(value: bool)
      requires Valid()
      modifies this
      ensures Valid()
      ensures isRequired == value
      ensures name == old(name) && isNameSetExplicitly == old(isNameSetExplicitly)
      ensures order == old(order) && emitDefaultValue == old(emitDefaultValue)
    {
      isRequired := value;
    }

    /** The EmitDefaultValue setter. */
    method SetEmitDefaultValue(value: bool)
      requires Valid()
      modifies this
      ensures Valid()
      ensures emitDefaultValue == value
      ensures name == old(name) && isNameSetExplicitly == old(isNameSetExplicitly)
      ensures order == old(order) && isRequired == old(isRequired)
    {
      emitDefaultValue := value;
    }
  }

  /**
   * Whatever is set, and in whatever order, an attribute whose Order was
   * never accepted keeps -1, and one whose Name was never set is not
   * explicitly named: a run of setters from the constructor.
   */
  method Configure(setName: Option<Option<string>>, orders: seq<int32>) returns (a: DataMemberAttribute, accepted: seq<int32>)
    ensures fresh(a) && a.Valid()
    ensures a.isNameSetExplicitly <==> setName.Some?
    ensures setName.Some? ==> a.name == setName.value
    ensures forall k | 0 <= k < |accepted| :: accepted[k] >= 0
    ensures a.order == if |accepted| == 0 then -1 else accepted[|accepted| - 1]
  {
    a := new DataMemberAttribute();
    if setName.Some? {
      a.SetName(setName.value);
    }
    accepted := [];
    var i := 0;
    while i < |orders|
      invariant 0 <= i <= |orders|
      invariant a.Valid()
      invariant a.isNameSetExplicitly <==> setName.Some?
      invariant setName.Some? ==> a.name == setName.value
      invariant forall k | 0 <= k < |accepted| :: accepted[k] >= 0
      invariant a.order == if |accepted| == 0 then -1 else accepted[|accepted| - 1]
    {
      var r := a.SetOrder(orders[i]);
      if r.Ok? {
        accepted := accepted + [orders[i]];
      }
      i := i + 1;
    }
  }
}
