/**
 * The dial <-> user coordinate transform of a motor record and the field
 * handlers that keep the user setpoint (VAL) and the user readback (RBV)
 * consistent with the dial setpoint (DVAL), the dial readback (DRBV), the
 * calibration offset (OFF) and the direction (DIR).
 *
 * A write to a record field runs that field's handler first and stores the
 * written value only after the handler returns; the handlers therefore see
 * the old value of the field being written, and the OFF and DIR handlers pass
 * the new value explicitly.
 */
module Motor {

  /** The sign of a direction: -1 for "Neg", +1 for every other value. */
  function Sign(direction: string): (s: real)
    ensures s == -1.0 <==> direction == "Neg"
    ensures s == 1.0 <==> direction != "Neg"
  {
    if direction == "Neg" then -1.0 else 1.0
  }

  /** A dial value seen in user coordinates: dial * sign + offset. */
  function DialToUser(dial: real, offset: real, direction: string): (user: real)
    ensures direction == "Neg" ==> user == offset - dial
    ensures direction != "Neg" ==> user == dial + offset
  {
    dial * Sign(direction) + offset
  }

  /** A user value seen in dial coordinates: (user - offset) / sign. */
  function UserToDial(user: real, offset: real, direction: string): (dial: real)
    ensures DialToUser(dial, offset, direction) == user
    ensures direction == "Neg" ==> dial == offset - user
    ensures direction != "Neg" ==> dial == user - offset
  {
    (user - offset) / Sign(direction)
  }

  /** Converting to user coordinates and back recovers the dial value. */
  lemma DialUserDialRoundTrip(dial: real, offset: real, direction: string)
    ensures UserToDial(DialToUser(dial, offset, direction), offset, direction) == dial
  {
  }

  /** The transform is one-to-one for every offset and direction. */
  lemma DialToUserInjective(d1: real, d2: real, offset: real, direction: string)
    ensures DialToUser(d1, offset, direction) == DialToUser(d2, offset, direction) <==> d1 == d2
  {
  }

  /** The fields of one motor record that its coordinate handlers read and write. */
  class MotorRecord {
    var val: real      // VAL: the user setpoint, the value of the parent property
    var dval: real     // DVAL: the dial setpoint
    var rbv: real      // RBV: the user readback
    var drbv: real     // DRBV: the dial readback
    var off: real      // OFF: the user offset
    var dir: string    // DIR: the user direction, "Pos" or "Neg"

    /** Both user values are the current dial values under OFF and DIR. */
    ghost predicate Consistent()
      reads this
    {
      && val == DialToUser(dval, off, dir)
      && rbv == DialToUser(drbv, off, dir)
    }

    /** A fresh record: every value zero, direction "Pos". */
    constructor ()
      ensures Consistent()
      ensures val == 0.0 && dval == 0.0 && rbv == 0.0 && drbv == 0.0
      ensures off == 0.0 && dir == "Pos"
    {
      val, dval, rbv, drbv, off, dir := 0.0, 0.0, 0.0, 0.0, 0.0, "Pos";
    }

    /** The DVAL handler: writes the user setpoint for the incoming dial setpoint. */
    method PutDialDesiredValue(value: real)
      modifies this
      ensures val == DialToUser(value, off, dir)
      ensures dval == old(dval) && rbv == old(rbv) && drbv == old(drbv)
      ensures off == old(off) && dir == old(dir)
    {
      val := DialToUser(value, off, dir);
    }

    /** A write to DVAL: the handler, then DVAL itself is stored. */
    method WriteDialDesiredValue(value: real)
      modifies this
      ensures dval == value && val == DialToUser(value, off, dir)
      ensures rbv == old(rbv) && drbv == old(drbv)
      ensures off == old(off) && dir == old(dir)
      ensures old(Consistent()) ==> Consistent()
    {
      PutDialDesiredValue(value);
      dval := value;
    }

    /** The DRBV handler: writes the user readback for the incoming dial readback. */
    method PutDialReadbackValue(value: real)
      modifies this
      ensures rbv == DialToUser(value, off, dir)
      ensures val == old(val) && dval == old(dval) && drbv == old(drbv)
      ensures off == old(off) && dir == old(dir)
    {
      rbv := DialToUser(value, off, dir);
    }

    /** A write to DRBV: the handler, then DRBV itself is stored. No setpoint changes. */
    method WriteDialReadbackValue(value: real)
      modifies this
      ensures drbv == value && rbv == DialToUser(value, off, dir)
      ensures val == old(val) && dval == old(dval)
      ensures off == old(off) && dir == old(dir)
      ensures old(Consistent()) ==> Consistent()
    {
      PutDialReadbackValue(value);
      drbv := value;
    }

    /**
     * The OFF handler: recomputes both user values from the unchanged dial
     * values with the incoming offset, since OFF itself still holds the old one.
     */
    method PutUserOffset(value: real)
      modifies this
      ensures val == DialToUser(dval, value, dir)
      ensures rbv == DialToUser(drbv, value, dir)
      ensures dval == old(dval) && drbv == old(drbv)
      ensures off == old(off) && dir == old(dir)
    {
      val := DialToUser(dval, value, dir);
      rbv := DialToUser(drbv, value, dir);
    }

    /** A write to OFF: the handler, then OFF itself is stored. */
    method WriteUserOffset(value: real)
      modifies this
      ensures off == value && Consistent()
      ensures dval == old(dval) && drbv == old(drbv) && dir == old(dir)
    {
      PutUserOffset(value);
      off := value;
    }

    /**
     * The DIR handler: recomputes both user values from the unchanged dial
     * values with the incoming direction, since DIR itself still holds the old one.
     */
    method PutUserDirection(value: string)
      modifies this
      ensures val == DialToUser(dval, off, value)
      ensures rbv == DialToUser(drbv, off, value)
      ensures dval == old(dval) && drbv == old(drbv)
      ensures off == old(off) && dir == old(dir)
    {
      val := DialToUser(dval, off, value);
      rbv := DialToUser(drbv, off, value);
    }

    /** A write to DIR: the handler, then DIR itself is stored. */
    method WriteUserDirection(value: string)
      modifies this
      ensures dir == value && Consistent()
      ensures dval == old(dval) && drbv == old(drbv) && off == old(off)
    {
      PutUserDirection(value);
      dir := value;
    }

    /**
     * A new desired user value arriving from the parent's subscription: it is
     * converted to dial coordinates and written to DVAL, whose handler writes
     * the user setpoint back (one hop of the cascade).
     */
    method HandleNewUserDesiredValue(user: real)
      modifies this
      ensures dval == UserToDial(user, old(off), old(dir))
      ensures val == user
      ensures rbv == old(rbv) && drbv == old(drbv)
      ensures off == old(off) && dir == old(dir)
      ensures old(Consistent()) ==> Consistent()
    {
      WriteDialDesiredValue(UserToDial(user, off, dir));
    }
  }

  /**
   * The setpoint conversions of the record's tests: DIR "Pos", OFF 1615 and
   * DVAL 5885 give VAL 7500; OFF 1715 gives 7600; OFF 12385 and DIR "Neg" give 6500.
   */
  method SetpointScenario() returns (first: real, second: real, third: real)
    ensures first == 7500.0 && second == 7600.0 && third == 6500.0
  {
    var m := new MotorRecord();
    m.WriteUserDirection("Pos");
    m.WriteUserOffset(1615.0);
    m.WriteDialDesiredValue(5885.0);
    first := m.val;
    m.WriteUserOffset(1715.0);
    second := m.val;
    m.WriteUserOffset(12385.0);
    m.WriteUserDirection("Neg");
    third := m.val;
  }

  /** The same conversions on the readback pair, DRBV and RBV. */
  method ReadbackScenario() returns (first: real, second: real, third: real, setpoint: real)
    ensures first == 7500.0 && second == 7600.0 && third == 6500.0
    ensures setpoint == 12385.0
  {
    var m := new MotorRecord();
    m.WriteUserDirection("Pos");
    m.WriteUserOffset(1615.0);
    m.WriteDialReadbackValue(5885.0);
    first := m.rbv;
    m.WriteUserOffset(1715.0);
    second := m.rbv;
    m.WriteUserOffset(12385.0);
    m.WriteUserDirection("Neg");
    third := m.rbv;
    setpoint := m.val;
  }

  /** A desired user value of 7500 with OFF 1615 loads DVAL 5885 and leaves VAL at 7500. */
  method DesiredValueScenario() returns (dial: real, user: real)
    ensures dial == 5885.0 && user == 7500.0
  {
    var m := new MotorRecord();
    m.WriteUserDirection("Pos");
    m.WriteUserOffset(1615.0);
    m.HandleNewUserDesiredValue(7500.0);
    dial := m.dval;
    user := m.val;
  }
}
