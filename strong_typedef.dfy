/** Strongly typed wrappers around scalar values: each use of the wrapper
    macro declares a class `To` holding a single `From` value, built only
    through an explicit constructor and read only through explicit
    conversions, so that a wrapped value never mixes with a raw one or with
    another wrapper over the same scalar.

    `Strong<Tag, From>` stands for the class one use of the macro declares;
    `Tag` names that use, so that two wrappers over the same `From` are
    distinct types, as two macro expansions are. */
module StrongTypedef {

  class Strong<Tag, From> {
    /** The wrapped value. */
    var x: From

    /** The explicit constructor from a `From`. */
    constructor (x_: From)
      ensures Unwrap(this) == x_
    {
      x := x_;
    }

    /** The explicit conversion to `const From&`: the stored value. Being a
        function, it cannot change the wrapper. */
    function ConstRef(): (r: From)
      reads this
      ensures r == Unwrap(this)
    {
      x
    }

    /** An assignment through the explicit conversion to `From&`: the stored
        value becomes `v`, and nothing but this wrapper changes. */
    method AssignThroughRef(v: From)
      modifies this
      ensures Unwrap(this) == v
    {
      x := v;
    }
  }

  /** The unwrap function `To_to_From`: the value held by a wrapper. */
  function Unwrap<Tag, From>(to: Strong<Tag, From>): From
    reads to
  {
    to.x
  }

  /** Wrapping a value and unwrapping it gives the value back. */
  method WrapUnwrap<Tag, From>(v: From) returns (r: From)
    ensures r == v
  {
    var to := new Strong<Tag, From>(v);
    r := Unwrap(to);
  }

  /** The const conversion of a freshly wrapped value yields that value. */
  method ConstRefAfterWrap<Tag, From>(v: From) returns (r: From)
    ensures r == v
  {
    var to := new Strong<Tag, From>(v);
    r := to.ConstRef();
  }

  /** After an assignment through one wrapper's mutable conversion, its const
      conversion yields the assigned value, and another wrapper's const
      conversion yields what it did before. */
  method ConstRefAfterAssign<Tag, From>(to: Strong<Tag, From>, other: Strong<Tag, From>, v: From)
    returns (r: From)
    requires to != other
    modifies to
    ensures r == v
    ensures other.ConstRef() == old(other.ConstRef())
  {
    to.AssignThroughRef(v);
    r := to.ConstRef();
  }

  /** Assigning through one wrapper's reference leaves every other wrapper
      as it was; a later unwrap returns the assigned value. */
  method AssignThenUnwrap<Tag, From>(to: Strong<Tag, From>, other: Strong<Tag, From>, v: From)
    returns (r: From)
    requires to != other
    modifies to
    ensures r == v
    ensures Unwrap(other) == old(Unwrap(other))
  {
    to.AssignThroughRef(v);
    r := Unwrap(to);
  }
}
