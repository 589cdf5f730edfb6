/** How the octet machine reads whole numbers and whole strings, from however much of them is at hand. */
module HpackChunks {
  import opened Bytes
  import opened HpackInteger
  import opened HpackFormat
  import opened HpackReader
  import HuffmanTable

  // ---------------------------------------------------------------- numbers

  predicate IsLengthState(st: State) {
    st.ReadTableSize? || st.ReadIndex? || st.NewnameReadNamelen? || st.ReadValuelen?
  }

  function PrefixOf(s: Dec): prefix {
    if s.state.ReadTableSize? then 5 else if s.state.ReadIndex? then IndexPrefix(s) else 7
  }

  function LimitOf(s: Dec): nat {
    if s.state.ReadTableSize? then Min(s.minMax, s.settingsMax)
    else if s.state.ReadIndex? then |s.table| + STATIC_LENGTH
    else MAX_NV
  }

  /** What a completed number does, by state. */
  function Finish(P: Params, s: Dec): Result {
    if s.state.ReadTableSize? then Next(SizeRead(s), [])
    else if s.state.ReadIndex? then IndexDone(P, s)
    else if s.state.NewnameReadNamelen? then Next(NameStart(s), [])
    else ValueDoneIfEmpty(P, ValueStart(s))
  }

  lemma LengthStep(P: Params, s: Dec, b: byte)
    requires IsLengthState(s.state)
    ensures Step(P, s, b) == match LengthByte(s, b, PrefixOf(s), LimitOf(s))
                             case TooBig => Bad
                             case Partial(s1) => Next(s1, [])
                             case Complete(s1) => Finish(P, s1)
  {
  }

  lemma {:induction false} IntRunGrows(n: nat, shift: nat, input: seq<byte>, p: prefix)
    ensures var r := IntRun(n, shift, input, p).0;
            (r.More? ==> r.n >= n) && (r.Done? ==> r.value >= n)
    decreases |input|
  {
    if input != [] {
      var st := IntByte(n, shift, input[0], p);
      if st.More? {
        IntRunGrows(st.n, st.shift, input[1..], p);
      }
    }
  }

  /** What becomes of the rest of the input when `r` has been read of a number. */
  function AfterNumber(P: Params, s: Dec, r: (IntState, nat), input: seq<byte>): Outcome
    requires r.1 <= |input|
  {
    match r.0
    case Overflow => Outcome(None, [])
    case More(n, sh) => if n > LimitOf(s) then Outcome(None, []) else Outcome(Some(s.(left := n, shift := sh)), [])
    case Done(v) =>
      if v > LimitOf(s) then Outcome(None, [])
      else Continue(P, Finish(P, s.(left := v, shift := 0)), input[r.1..])
  }

  /**
   * Reading a number octet by octet, checking the limit after every octet, is reading as many octets as there
   * are and checking once.
   */
  lemma {:induction false} NumberRun(P: Params, s: Dec, input: seq<byte>)
    requires IsLengthState(s.state) && s.left <= LimitOf(s)
    ensures Run(P, s, input) == AfterNumber(P, s, IntRun(s.left, s.shift, input, PrefixOf(s)), input)
    decreases |input|
  {
    if input != [] {
      LengthStep(P, s, input[0]);
      var st := IntByte(s.left, s.shift, input[0], PrefixOf(s));
      if st.More? {
        IntRunGrows(st.n, st.shift, input[1..], PrefixOf(s));
        var s1 := s.(left := st.n, shift := st.shift);
        if st.n <= LimitOf(s) {
          NumberRun(P, s1, input[1..]);
          PrependNothing(Run(P, s1, input[1..]));
          var r := IntRun(st.n, st.shift, input[1..], PrefixOf(s));
          assert input[1..][r.1..] == input[r.1 + 1..];
        }
      }
    }
  }

  // ---------------------------------------------------------------- literal strings

  function NameTaken(s: Dec, part: seq<byte>): Dec
    requires |part| <= s.left
  {
    var s1 := s.(name := s.name + part, left := s.left - |part|);
    if s1.left == 0 then s1.(state := CheckValuelen) else s1
  }

  lemma {:induction false} NameRun(P: Params, s: Dec, part: seq<byte>, rest: seq<byte>)
    requires s.state.NewnameReadName? && 0 < |part| <= s.left
    ensures Run(P, s, part + rest) == Run(P, NameTaken(s, part), rest)
    decreases |part|
  {
    var t := part[1..];
    var s1 := NameTaken(s, [part[0]]);
    assert part + rest == [part[0]] + (t + rest);
    RunCons(P, s, part[0], t + rest);
    PrependNothing(Run(P, s1, t + rest));
    if t == [] {
      assert t + rest == rest && part == [part[0]];
    } else {
      NameRun(P, s1, t, rest);
      assert (s.name + [part[0]]) + t == s.name + part;
    }
  }

  function ValueTaken(P: Params, s: Dec, part: seq<byte>): Result
    requires |part| <= s.left
  {
    ValueDoneIfEmpty(P, s.(value := s.value + part, left := s.left - |part|))
  }

  lemma {:induction false} ValueRun(P: Params, s: Dec, part: seq<byte>, rest: seq<byte>)
    requires s.state.ReadValue? && 0 < |part| <= s.left
    ensures Run(P, s, part + rest) == Continue(P, ValueTaken(P, s, part), rest)
    decreases |part|
  {
    var t := part[1..];
    assert part + rest == [part[0]] + (t + rest);
    RunCons(P, s, part[0], t + rest);
    if t == [] {
      assert t + rest == rest && part == [part[0]];
    } else {
      var s1 := s.(value := s.value + [part[0]], left := s.left - 1);
      PrependNothing(Run(P, s1, t + rest));
      ValueRun(P, s1, t, rest);
      assert (s.value + [part[0]]) + t == s.value + part;
    }
  }

  // ---------------------------------------------------------------- Huffman strings

  function NameHuffTaken(P: Params, s: Dec, part: seq<byte>): Result
    requires |part| <= s.left
  {
    var (f, o) := HuffmanTable.Read(P.table, s.fstate, part);
    var s1 := s.(name := s.name + o, fstate := f, left := s.left - |part|);
    if !HuffmanOk(f, s1.left) then Bad
    else Next(if s1.left == 0 then s1.(state := CheckValuelen) else s1, [])
  }

  function ValueHuffTaken(P: Params, s: Dec, part: seq<byte>): Result
    requires |part| <= s.left
  {
    var (f, o) := HuffmanTable.Read(P.table, s.fstate, part);
    var s1 := s.(value := s.value + o, fstate := f, left := s.left - |part|);
    if !HuffmanOk(f, s1.left) then Bad else ValueDoneIfEmpty(P, s1)
  }

  lemma ReadOne(tbl: HuffmanTable.table, f: nat, b: byte)
    ensures HuffmanTable.Read(tbl, f, [b]) == HuffmanTable.ReadByte(tbl, f, b)
  {
    var (f1, o1) := HuffmanTable.ReadByte(tbl, f, b);
    assert [b][1..] == [];
    assert o1 + [] == o1;
  }

  lemma ReadFirst(tbl: HuffmanTable.table, f: nat, part: seq<byte>)
    requires part != []
    ensures var (f1, o1) := HuffmanTable.ReadByte(tbl, f, part[0]);
            var (f2, o2) := HuffmanTable.Read(tbl, f1, part[1..]);
            HuffmanTable.Read(tbl, f, part) == (f2, o1 + o2)
  {
    hide HuffmanTable.ReadByte;
  }

  lemma StaysFailed(tbl: HuffmanTable.table, s: seq<byte>)
    requires HuffmanTable.Stuck(tbl)
    ensures HuffmanTable.Read(tbl, HuffmanTable.FAILED, s) == (HuffmanTable.FAILED, [])
  {
    hide HuffmanTable.Read;
  }

  /** Checking for a stuck decoder once at the end of a piece finds what checking after every octet finds. */
  lemma {:induction false} NameHuffRun(P: Params, s: Dec, part: seq<byte>, rest: seq<byte>)
    requires HuffmanTable.Stuck(P.table)
    requires s.state.NewnameReadNamehuff? && 0 < |part| <= s.left
    ensures Run(P, s, part + rest) == Continue(P, NameHuffTaken(P, s, part), rest)
    decreases |part|
  {
    hide HuffmanTable.Read, HuffmanTable.ReadByte, HuffmanTable.Stuck, Run, ValuelenByte, Commit;
    var t := part[1..];
    var tbl := P.table;
    assert part + rest == [part[0]] + (t + rest);
    RunCons(P, s, part[0], t + rest);
    ReadFirst(tbl, s.fstate, part);
    if t == [] {
      assert t + rest == rest && part == [part[0]];
      ReadOne(tbl, s.fstate, part[0]);
    } else {
      var (f, o) := HuffmanTable.ReadByte(tbl, s.fstate, part[0]);
      var (f2, o2) := HuffmanTable.Read(tbl, f, t);
      if f == HuffmanTable.FAILED {
        StaysFailed(tbl, t);
      } else {
        var s1 := s.(name := s.name + o, fstate := f, left := s.left - 1);
        PrependNothing(Run(P, s1, t + rest));
        NameHuffRun(P, s1, t, rest);
        assert (s.name + o) + o2 == s.name + (o + o2);
      }
    }
  }

  lemma {:induction false} ValueHuffRun(P: Params, s: Dec, part: seq<byte>, rest: seq<byte>)
    requires HuffmanTable.Stuck(P.table)
    requires s.state.ReadValuehuff? && 0 < |part| <= s.left
    ensures Run(P, s, part + rest) == Continue(P, ValueHuffTaken(P, s, part), rest)
    decreases |part|
  {
    hide HuffmanTable.Read, HuffmanTable.ReadByte, HuffmanTable.Stuck, Run, ValuelenByte, Commit;
    var t := part[1..];
    var tbl := P.table;
    assert part + rest == [part[0]] + (t + rest);
    RunCons(P, s, part[0], t + rest);
    ReadFirst(tbl, s.fstate, part);
    if t == [] {
      assert t + rest == rest && part == [part[0]];
      ReadOne(tbl, s.fstate, part[0]);
    } else {
      var (f, o) := HuffmanTable.ReadByte(tbl, s.fstate, part[0]);
      var (f2, o2) := HuffmanTable.Read(tbl, f, t);
      if f == HuffmanTable.FAILED {
        StaysFailed(tbl, t);
      } else {
        var s1 := s.(value := s.value + o, fstate := f, left := s.left - 1);
        PrependNothing(Run(P, s1, t + rest));
        ValueHuffRun(P, s1, t, rest);
        assert (s.value + o) + o2 == s.value + (o + o2);
      }
    }
  }
}
