/** Exactly when the writer accepts a string without a constrained length field. */
module PerAcceptance {
  import opened Wrappers
  import opened PerBits
  import opened PerSpec
  import opened PerStrings
  import opened PerSizes

  /** The octets that the fragments of `raw` units above the lower bound `lb` take up. */
  function Need(unit: nat, lb: nat, raw: nat): (octets: nat) {
    var part := FragmentSize(raw);
    OctetsFor(Scale(unit, part + lb)) + if 0 < part < raw then Need(unit, lb, raw - part) else 0
  }

  /** A size that is never masked to 0 on the way. */
  predicate NeverMasked(raw: nat) {
    raw == 0 || raw % 65536 != 0
  }

  lemma MaskedOnTheWay(raw: nat)
    ensures var part := FragmentSize(raw);
            && (part == 0 && raw > 0 <==> raw == 65536)
            && (0 < part < raw ==> (NeverMasked(raw) <==> NeverMasked(raw - part)))
            && (raw == part ==> NeverMasked(raw))
  {
    if raw > 65536 {
      assert (raw - 65536) % 65536 == raw % 65536;
    } else if raw == 65536 {
      assert FragmentSize(raw) == 0;
    } else {
      hide FragmentSize;
      FragmentShape(raw);
    }
  }

  /**
    The writer accepts if and only if the capacity of the slice holds all fragments and, under
    a lower bound, the size is no positive multiple of 65536.
  */
  lemma {:induction false} FragmentsAccepted(w: Bits, unit: nat, lb: nat, data: Bits, raw: nat)
    requires unit == 1 || unit == 8
    ensures PutFragments(w, unit, -1, lb, data, raw).Some?
            <==> |data| >= 8 * Need(unit, lb, raw) && (lb == 0 || NeverMasked(raw))
    decreases raw
  {
    hide PutLength, Aligned, OctetsFor, FragmentSize, Scale, LengthBits, NeverMasked;
    var part := FragmentSize(raw);
    MaskedOnTheWay(raw);
    LengthForm(w, part);
    var take := 8 * OctetsFor(Scale(unit, part + lb));
    if 0 < part < raw {
      WriterTurn(w, unit, -1, lb, data, raw, part);
      if take <= |data| {
        FragmentsAccepted(Aligned(Aligned(w) + LengthBits(part)) + data[..take], unit, lb, data[take..], raw - part);
      }
    } else if part < raw {
      if lb > 0 {
        MaskedSizeFails(w, unit, -1, lb, data);
      } else {
        EmptyFragment(w, unit, data, raw, Aligned(w) + LengthBits(0));
        NothingNeeded(unit);
      }
      NotNeverMasked();
    } else if part + lb == 0 {
      NothingNeeded(unit);
    }
  }

  lemma NothingNeeded(unit: nat)
    ensures OctetsFor(Scale(unit, 0)) == 0
  {
  }

  lemma NotNeverMasked()
    ensures !NeverMasked(65536)
  {
  }

  /** Without a lower bound the string's own octets are enough, and all of them are needed unless some are dropped. */
  lemma {:induction false} NeedWithoutBound(unit: nat, raw: nat)
    requires unit == 1 || unit == 8
    ensures Need(unit, 0, raw) <= OctetsFor(Scale(unit, raw))
    ensures NeverMasked(raw) ==> Need(unit, 0, raw) == OctetsFor(Scale(unit, raw))
    decreases raw
  {
    hide OctetsFor, FragmentSize, Scale, NeverMasked;
    var part := FragmentSize(raw);
    MaskedOnTheWay(raw);
    FragmentShape(raw);
    if 0 < part < raw {
      FragmentRest(unit, part, raw);
      NeedWithoutBound(unit, raw - part);
    } else if part < raw {
      NothingNeeded(unit);
      NotNeverMasked();
    }
  }

  /** So every string is accepted there, in a slice with or without spare capacity. */
  lemma AcceptedWithoutBound(w: Bits, unit: nat, data: Bits, raw: nat)
    requires (unit == 1 || unit == 8) && |data| >= 8 * OctetsFor(Scale(unit, raw))
    ensures PutFragments(w, unit, -1, 0, data, raw).Some?
  {
    hide PutFragments, OctetsFor, Scale, NeverMasked, Need;
    FragmentsAccepted(w, unit, 0, data, raw);
    NeedWithoutBound(unit, raw);
  }

  /** Accepted and lost: every positive multiple of 16384 without a lower bound. */
  lemma MultiplesLost(w: Bits, unit: nat, data: Bits, raw: nat, rest: Bits)
    requires (unit == 1 || unit == 8) && |data| >= 8 * OctetsFor(Scale(unit, raw)) && raw % 16384 == 0 && raw > 0
    ensures PutFragments(w, unit, -1, 0, data, raw).Some?
    ensures var s := PutFragments(w, unit, -1, 0, data, raw).value + rest;
            |s| % 8 == 0 ==>
              var r := GetFragments(s, |w|, unit, -1, 0);
              !(r.Got? && r.pos == |s| - |rest| && r.value.units == raw)
  {
    hide PutFragments, GetFragments, OctetsFor, Scale;
    AcceptedWithoutBound(w, unit, data, raw);
    var w' := PutFragments(w, unit, -1, 0, data, raw).value;
    if |w' + rest| % 8 == 0 {
      FragmentsLose(w, unit, data, raw, w', w' + rest);
    }
  }

  /** Accepted and lost: every size of 16384 and more above a lower bound that is never masked and finds room. */
  lemma BoundedLost(w: Bits, unit: nat, lb: nat, data: Bits, raw: nat, rest: Bits)
    requires (unit == 1 || unit == 8) && lb > 0 && raw >= 16384 && NeverMasked(raw)
    requires |data| >= 8 * Need(unit, lb, raw)
    ensures PutFragments(w, unit, -1, lb, data, raw).Some?
    ensures var s := PutFragments(w, unit, -1, lb, data, raw).value + rest;
            |s| % 8 == 0 ==>
              var r := GetFragments(s, |w|, unit, -1, lb);
              !(r.Got? && r.pos == |s| - |rest| && r.value.units == raw + lb)
  {
    hide PutFragments, GetFragments, OctetsFor, Scale, NeverMasked, Need, FragmentSize;
    FragmentsAccepted(w, unit, lb, data, raw);
    FragmentShape(raw);
    var w' := PutFragments(w, unit, -1, lb, data, raw).value;
    if |w' + rest| % 8 == 0 {
      BoundRepeated(w, unit, lb, data, raw, w', w' + rest);
      if FragmentSize(raw) == raw {
        DataSuffices(w, unit, lb, data, raw, w');
        MarkedLastFragmentLoses(w, unit, lb, data, raw, w', w' + rest);
      }
    }
  }
}
