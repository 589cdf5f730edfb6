/** Receive windows: what the peer may still send is changed only by what it sends and by what it is told. */
module FlowControl {
  import opened Bytes

  newtype int32 = x: int | -0x8000_0000 <= x <= 0x7fff_ffff

  const INT32_MAX: int32 := 0x7fff_ffff
  const INT32_MIN: int32 := -0x8000_0000
  const MAX_WINDOW_SIZE: int32 := 0x7fff_ffff
  const ERR_FLOW_CONTROL := -524
  const ERR_INVALID_ARGUMENT := -501

  // ---------------------------------------------------------------- windows as values

  /**
   * `local` is the window's size, `recv` what has been received and not yet returned, `reduction` what has been taken
   * off the size without the peer knowing.
   */
  datatype Sizes = Sizes(local: int, recv: int, reduction: int)

  /** What the peer may send. */
  function Credit(w: Sizes): int {
    w.local - w.recv
  }

  ghost predicate Sound(w: Sizes) {
    && 0 <= w.local && 0 <= w.reduction && w.local + w.reduction <= 0x7fff_ffff
    && -w.reduction <= w.recv <= w.local
  }

  /** A change of the window and what is left to announce to the peer. */
  datatype Change = Refused | Done(w: Sizes, wire: int)

  /** The window grows by `delta`; what it was once reduced by is given back first, unannounced. */
  function Grow(w: Sizes, delta: int, recv: int, wire: int): Change {
    var back := Min(w.reduction, delta);
    if w.local + delta > 0x7fff_ffff then Refused
    else Done(Sizes(w.local + delta, recv + back, w.reduction - back), wire - back)
  }

  function Adjust(w: Sizes, delta: int): Change {
    if delta > 0 then
      var left := Max(0, w.recv) - delta;
      if left >= 0 then Done(w.(recv := left), delta)
      else Grow(w, -left, Min(0, w.recv), delta)
    else if w.local + delta < 0 || w.recv + delta < -0x8000_0000 || w.reduction - delta > 0x7fff_ffff then Refused
    else Done(Sizes(w.local + delta, w.recv + delta, w.reduction - delta), 0)
  }

  function Increase(w: Sizes, delta: int): Change {
    Grow(w, delta, w.recv, delta)
  }

  /** Data arrives: it must fit, and when half the window is used up all of it is returned. */
  function Receive(w: Sizes, n: int, update: bool): Change {
    if w.recv + n > w.local then Refused
    else
      var w1 := w.(recv := w.recv + n);
      if update && ShouldUpdate(w1) then Done(w1.(recv := 0), w1.recv) else Done(w1, 0)
  }

  predicate ShouldUpdate(w: Sizes) {
    w.recv > 0 && w.recv >= w.local / 2
  }

  function SetSize(w: Sizes, size: int, update: bool): Change {
    if size < w.local then Adjust(w, size - w.local)
    else if size == w.local then Done(w, 0)
    else
      match Increase(w, size - w.local)
      case Refused => Refused
      case Done(w1, wire) => if wire > 0 then Done(w1, wire) else Receive(w1, 0, update)
  }

  // ---------------------------------------------------------------- conservation

  /** Nothing but the announced increment changes what the peer may send, and the window stays sound. */
  ghost predicate Conserves(w: Sizes, c: Change, received: int) {
    c.Done? ==> Sound(c.w) && 0 <= c.wire <= 0x7fff_ffff && Credit(c.w) == Credit(w) + c.wire - received
  }

  lemma AdjustConserves(w: Sizes, delta: int)
    requires Sound(w)
    ensures Conserves(w, Adjust(w, delta), 0)
  {
  }

  lemma IncreaseConserves(w: Sizes, delta: int)
    requires Sound(w) && delta >= 0
    ensures Conserves(w, Increase(w, delta), 0)
  {
  }

  /** Exactly which changes are refused: those that leave the range from 0 to 2^31 - 1. */
  lemma ChangeRefused(w: Sizes, delta: int)
    requires Sound(w)
    ensures delta > 0 ==> (Increase(w, delta).Refused? <==> w.local + delta > 0x7fff_ffff)
    ensures var more := delta - Max(0, w.recv);
            delta > 0 ==> (Adjust(w, delta).Refused? <==> (more > 0 && w.local + more > 0x7fff_ffff))
    ensures delta <= 0 ==> (Adjust(w, delta).Refused? <==> w.local + delta < 0)
    ensures Adjust(w, delta).Done? ==>
              Adjust(w, delta).w.local == w.local + if delta > 0 then Max(0, delta - Max(0, w.recv)) else delta
  {
  }

  lemma ReceiveConserves(w: Sizes, n: nat, update: bool)
    requires Sound(w)
    ensures Conserves(w, Receive(w, n, update), n)
    ensures Receive(w, n, update).Refused? <==> n > Credit(w)
  {
  }

  /** Credit comes back: with updates on less than half of the window is left unreturned, and it is returned whole. */
  lemma ReceiveReturns(w: Sizes, n: nat, update: bool)
    requires Sound(w) && n <= Credit(w)
    ensures var c, got := Receive(w, n, update), w.recv + n;
            && c.Done? && c.w.local == w.local && c.w.reduction == w.reduction
            && (if update && got > 0 && 2 * got + 1 >= w.local then c.wire == got && c.w.recv == 0
                else c.wire == 0 && c.w.recv == got)
            && (update ==> c.w.recv <= 0 || 2 * c.w.recv < w.local)
  {
  }

  /** A size that is accepted is the window's size afterwards; any reduction is accepted. */
  lemma SetSizeSets(w: Sizes, size: nat, update: bool)
    requires Sound(w) && size <= 0x7fff_ffff
    ensures Conserves(w, SetSize(w, size, update), 0)
    ensures SetSize(w, size, update).Done? && SetSize(w, size, update).w.local == size
  {
    if size > w.local {
      IncreaseConserves(w, size - w.local);
    }
  }

  /** Growing by what the window was reduced by restores it, and the peer hears of neither. */
  lemma IncreaseUndoesReduction(w: Sizes, x: nat)
    requires Sound(w) && Adjust(w, 0 - x).Done?
    ensures Increase(Adjust(w, 0 - x).w, x) == Done(w, 0)
  {
  }

  /** The other way of growing does so exactly when no more than `x` was waiting to be returned. */
  lemma AdjustUndoesReduction(w: Sizes, x: nat)
    requires Sound(w) && Adjust(w, 0 - x).Done? && x > 0
    ensures Adjust(Adjust(w, 0 - x).w, x) == Done(w, 0) <==> w.recv <= x
  {
  }

  /** Of 50 octets received in a window of 100, reducing it by 10 and growing it again returns 10 to the peer. */
  lemma AdjustLosesTen()
    ensures var w := Sizes(100, 50, 0);
            && Sound(w) && Adjust(w, -10) == Done(Sizes(90, 40, 10), 0)
            && Adjust(Adjust(w, -10).w, 10) == Done(Sizes(90, 30, 10), 10)
  {
  }

  datatype Event =
    | ByAdjust(change: int) | ByIncrease(delta: nat)
    | ByData(n: nat, update: bool) | BySize(size: nat, update: bool)

  function Apply(w: Sizes, e: Event): Change {
    match e
    case ByAdjust(d) => Adjust(w, d)
    case ByIncrease(d) => Increase(w, d)
    case ByData(n, u) => Receive(w, n, u)
    case BySize(n, u) => SetSize(w, n, u)
  }

  function Received(e: Event): nat {
    if e.ByData? then e.n else 0
  }

  /** The window after a run of events, refused ones changing nothing, with all that was announced and received. */
  function RunAll(w: Sizes, es: seq<Event>): (Sizes, int, int)
    decreases |es|
  {
    if es == [] then (w, 0, 0)
    else
      match Apply(w, es[0])
      case Refused => RunAll(w, es[1..])
      case Done(w1, wire) =>
        var (w2, announced, received) := RunAll(w1, es[1..]);
        (w2, announced + wire, received + Received(es[0]))
  }

  /**
   * Over any run the peer may send what it could at first, plus what was announced, minus what it sent; and that is
   * never negative and never more than the largest window (section 6.9.1 of RFC 9113).
   */
  lemma {:induction false} RunConserves(w: Sizes, es: seq<Event>)
    requires Sound(w) && forall e :: e in es && e.BySize? ==> e.size <= 0x7fff_ffff
    ensures var (w1, announced, received) := RunAll(w, es);
            && Sound(w1) && announced >= 0 && 0 <= received
            && Credit(w1) == Credit(w) + announced - received
            && 0 <= Credit(w1) <= 0x7fff_ffff
    decreases |es|
  {
    if es != [] {
      var e := es[0];
      assert e in es && forall x :: x in es[1..] ==> x in es;
      ApplyConserves(w, e);
      hide Apply, Sound;
      var c := Apply(w, e);
      RunConserves(if c.Done? then c.w else w, es[1..]);
    }
  }

  lemma ApplyConserves(w: Sizes, e: Event)
    requires Sound(w) && (e.BySize? ==> e.size <= 0x7fff_ffff)
    ensures Conserves(w, Apply(w, e), Received(e))
  {
    hide Adjust, Increase, Receive, SetSize, Sound;
    match e
    case ByAdjust(d) => AdjustConserves(w, d);
    case ByIncrease(d) => IncreaseConserves(w, d);
    case ByData(n, u) => ReceiveConserves(w, n, u);
    case BySize(n, u) => SetSizeSets(w, n, u);
  }

  // ---------------------------------------------------------------- the routines, in 32 bits

  method Max32(a: int32, b: int32) returns (r: int32)
    ensures r as int == Max(a as int, b as int)
  {
    r := if a < b then b else a;
  }

  method Min32(a: int32, b: int32) returns (r: int32)
    ensures r as int == Min(a as int, b as int)
  {
    r := if a < b then a else b;
  }

  class Window {
    var local: int32
    var recv: int32
    var reduction: int32

    function State(): Sizes
      reads this
    {
      Sizes(local as int, recv as int, reduction as int)
    }

    constructor (size: int32)
      requires size >= 0
      ensures State() == Sizes(size as int, 0, 0) && Sound(State())
    {
      local, recv, reduction := size, 0, 0;
    }

    /** Says what became of the window: it is as `c` has it, or untouched. */
    twostate predicate Became(c: Change, rv: int, wire: int32)
      reads this
    {
      match c
      case Refused => rv == ERR_FLOW_CONTROL && State() == old(State())
      case Done(w, left) => rv == 0 && State() == w && wire as int == left
    }

    method AdjustLocalWindowSize(delta: int32) returns (rv: int, wire: int32)
      requires Sound(State())
      modifies this
      ensures Became(Adjust(old(State()), delta as int), rv, wire)
      ensures Sound(State())
    {
      wire := delta;
      if delta > 0 {
        var received := Max32(0, recv);
        var newRecv := received - delta;
        if newRecv >= 0 {
          recv := newRecv;
          return 0, delta;
        }
        var more := -newRecv;
        if local > MAX_WINDOW_SIZE - more {
          return ERR_FLOW_CONTROL, delta;
        }
        local := local + more;
        var back := Min32(reduction, more);
        reduction := reduction - back;
        recv := if recv < 0 then recv + back else back;
        return 0, delta - back;
      }
      if local + delta < 0 || recv < INT32_MIN - delta || reduction > INT32_MAX + delta {
        return ERR_FLOW_CONTROL, delta;
      }
      local := local + delta;
      recv := recv + delta;
      reduction := reduction - delta;
      rv, wire := 0, 0;
    }

    method IncreaseLocalWindowSize(delta: int32) returns (rv: int, wire: int32)
      requires Sound(State()) && delta >= 0
      modifies this
      ensures Became(Increase(old(State()), delta as int), rv, wire)
      ensures Sound(State())
    {
      wire := delta;
      if local > MAX_WINDOW_SIZE - delta {
        return ERR_FLOW_CONTROL, delta;
      }
      local := local + delta;
      var back := Min32(reduction, delta);
      reduction := reduction - back;
      recv := recv + back;
      return 0, delta - back;
    }

    method ShouldSendWindowUpdate() returns (yes: bool)
      requires Sound(State())
      ensures yes == ShouldUpdate(State())
    {
      yes := recv > 0 && recv >= local / 2;
    }

    /** Data received; `update` says that the library returns credit by itself. */
    method UpdateRecvWindowSize(n: int32, update: bool) returns (rv: int, wire: int32)
      requires Sound(State()) && n >= 0
      modifies this
      ensures Became(Receive(old(State()), n as int, update), rv, wire)
      ensures Sound(State())
    {
      wire := 0;
      if recv > local - n || recv > MAX_WINDOW_SIZE - n {
        return ERR_FLOW_CONTROL, 0;
      }
      recv := recv + n;
      if update {
        var yes := ShouldSendWindowUpdate();
        if yes {
          wire := recv;
          recv := 0;
        }
      }
      rv := 0;
    }

    method SetLocalWindowSize(size: int32, update: bool) returns (rv: int, wire: int32)
      requires Sound(State())
      modifies this
      ensures size < 0 ==> rv == ERR_INVALID_ARGUMENT && State() == old(State())
      ensures size >= 0 ==> Became(SetSize(old(State()), size as int, update), rv, wire)
      ensures Sound(State())
    {
      wire := 0;
      if size < 0 {
        return ERR_INVALID_ARGUMENT, 0;
      }
      var increment := size - local;
      if increment == 0 {
        return 0, 0;
      }
      if increment < 0 {
        rv, wire := AdjustLocalWindowSize(increment);
        return;
      }
      rv, wire := IncreaseLocalWindowSize(increment);
      if rv != 0 || wire > 0 {
        return;
      }
      rv, wire := UpdateRecvWindowSize(0, update);
    }
  }
}
