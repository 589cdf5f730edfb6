/** The toy's serial protocol: framing into one buffer, the validator, and the replies. */
module QBus {
  import opened Crc16

  const FRAME_MIN_LEN := 7
  const BUFFER_LEN := 100
  const REG_READ_CMD: bv8 := 1
  const REG_WRITE_CMD: bv8 := 2
  const ERR_CODE: bv8 := 0x80
  const REG_SUCCESS: bv8 := 0
  const REG_ERR_FUNC_CODE: bv8 := 1
  const REG_ERR_ADDR: bv8 := 2

  const READ_DATA_REG_START := 0x1000
  const READ_DATA_NUM_REGS := 11

  /** What the receiving side's validator accepts. */
  predicate Accepts(f: octets) {
    |f| >= FRAME_MIN_LEN && Crc(f) == 0
  }

  // ---------------------------------------------------------------- what corruption is noticed

  /** A valid frame changed within sixteen consecutive bits is not valid. */
  lemma BurstRejected(f: octets, g: octets, k: nat)
    requires Accepts(f) && |g| == |f| && g != f
    requires forall i :: 0 <= i < 8 * |f| && Bits(f)[i] != Bits(g)[i] ==> k <= i < k + 16
    ensures !Accepts(g)
  {
    hide Crc, Bits;
    BurstDetected(f, g, k);
  }

  /** A valid frame changed in two neighbouring octets, in any way, is not valid. */
  lemma NeighboursRejected(f: octets, g: octets, j: nat)
    requires Accepts(f) && |g| == |f| && g != f
    requires forall i :: 0 <= i < |f| && i != j && i != j + 1 ==> f[i] == g[i]
    ensures !Accepts(g)
  {
    hide Crc, Bits;
    var n := if j + 2 <= |f| then j + 2 else |f|;
    var m := if j <= |f| then j else |f|;
    Sections(f, m, n);
    Sections(g, m, n);
    assert f[..m] == g[..m] && f[n..] == g[n..];
    BurstRejected(f, g, 8 * m);
  }

  lemma Sections(f: octets, m: nat, n: nat)
    requires m <= n <= |f|
    ensures Bits(f) == Bits(f[..m]) + (Bits(f[m..n]) + Bits(f[n..]))
  {
    hide Bits;
    InThree(f, m, n);
    ThreeParts(f[..m], f[m..n], f[n..]);
  }

  lemma ThreeParts(a: octets, b: octets, c: octets)
    ensures Bits(a + (b + c)) == Bits(a) + (Bits(b) + Bits(c))
  {
    hide Bits;
    BitsAppend(a, b + c);
    BitsAppend(b, c);
  }

  lemma OneOctetChanged(f: octets, j: nat, b: bv8)
    requires Accepts(f) && j < |f|
    ensures Accepts(f[j := b]) <==> f[j] == b
  {
    hide Crc;
    if f[j] != b {
      NeighboursRejected(f, f[j := b], j);
    } else {
      assert f[j := b] == f;
    }
  }

  /** A valid frame with an odd number of changed bits is not valid. */
  lemma OddChangesRejected(f: octets, g: octets)
    requires Accepts(f) && |g| == |f| && Parity(XorBits(Bits(f), Bits(g)))
    ensures !Accepts(g)
  {
    hide Crc, Bits;
    OddErrorsDetected(f, g);
  }

  // ---------------------------------------------------------------- replies

  function Number(high: bv8, low: bv8): nat {
    high as nat * 256 + low as nat
  }

  predicate Readable(address: nat, len: nat) {
    address >= READ_DATA_REG_START && address + len <= READ_DATA_REG_START + READ_DATA_NUM_REGS
  }

  /** Single registers that may be written. */
  predicate Writable(address: nat, len: nat) {
    || Single(0x3000, address, len) || Single(0x4000, address, len) || Single(0x5000, address, len)
    || Single(0x7000, address, len) || Single(0x8000, address, len) || Single(0x9000, address, len)
    || Single(0xA000, address, len)
  }

  predicate Single(start: nat, address: nat, len: nat) {
    start <= address && address + len <= start + 1
  }

  function WriteCode(address: nat, len: nat): bv8 {
    if Writable(address, len) then REG_SUCCESS else REG_ERR_ADDR
  }

  /** The reply to a request, without its checksum, `regs` being the readable registers. */
  function Reply(f: octets, regs: octets): (r: octets)
    requires |f| >= 5 && |regs| >= READ_DATA_NUM_REGS
    ensures 5 <= |r| <= 5 + READ_DATA_NUM_REGS && r[1..5] == f[1..5]
  {
    var address, len := Number(f[1], f[2]), Number(f[3], f[4]);
    if f[0] == REG_READ_CMD then
      if Readable(address, len) then f[..5] + regs[address - READ_DATA_REG_START..address - READ_DATA_REG_START + len]
      else [ERR_CODE | f[0]] + f[1..5] + [REG_ERR_ADDR]
    else if f[0] == REG_WRITE_CMD then
      var code := WriteCode(address, len);
      [if code == REG_SUCCESS then f[0] else ERR_CODE | f[0]] + f[1..5] + [code]
    else [ERR_CODE] + f[1..5] + [REG_ERR_FUNC_CODE]
  }

  /** What octets 1 to 4 of a request name, the high octet first in each number. */
  function AddressOf(f: octets): nat
    requires |f| >= 5
  {
    256 * f[1] as nat + f[2] as nat
  }

  function CountOf(f: octets): nat
    requires |f| >= 5
  {
    256 * f[3] as nat + f[4] as nat
  }

  /** Any run of the eleven registers from 0x1000 on comes back in its order; anything else is an error with code 2. */
  lemma ReadLaw(f: octets, regs: octets)
    requires |f| >= 5 && |regs| >= 11 && f[0] == 1
    ensures var r, address, len := Reply(f, regs), AddressOf(f), CountOf(f);
            if 0x1000 <= address && address + len <= 0x100B then
              r == [1] + f[1..5] + regs[address - 0x1000..address - 0x1000 + len]
            else r == [0x81] + f[1..5] + [2]
  {
    hide Writable;
    ErrorBit();
  }

  /** One of the registers that can be written. */
  predicate IsWritten(a: int) {
    a == 0x3000 || a == 0x4000 || a == 0x5000 || a == 0x7000 || a == 0x8000 || a == 0x9000 || a == 0xA000
  }

  /** A single such register, or none at or just behind one, is accepted; anything else is an error with code 2. */
  lemma WriteLaw(f: octets, regs: octets)
    requires |f| >= 5 && |regs| >= 11 && f[0] == 2
    ensures var r, address, len := Reply(f, regs), AddressOf(f), CountOf(f);
            if (IsWritten(address) && len <= 1) || (IsWritten(address - 1) && len == 0) then r == [2] + f[1..5] + [0]
            else r == [0x82] + f[1..5] + [2]
  {
    hide Readable, Writable, IsWritten;
    WritableIs(AddressOf(f), CountOf(f));
    ErrorBit();
  }

  lemma WritableIs(address: nat, len: nat)
    ensures Writable(address, len) <==> (IsWritten(address) && len <= 1) || (IsWritten(address - 1) && len == 0)
  {
  }

  lemma UnknownLaw(f: octets, regs: octets)
    requires |f| >= 5 && |regs| >= 11 && f[0] != 1 && f[0] != 2
    ensures Reply(f, regs) == [0x80] + f[1..5] + [1]
  {
    hide Writable, Readable;
  }

  lemma ErrorBit()
    ensures ERR_CODE | 1 == 0x81 && ERR_CODE | 2 == 0x82
  {
  }

  function Checked(r: octets): octets {
    r + [LowOctet(Crc(r)), HighOctet(Crc(r))]
  }

  /** With its checksum anything of five octets or more is accepted. */
  lemma CheckedIsAccepted(r: octets)
    requires |r| >= 5
    ensures Accepts(Checked(r))
  {
    hide Crc, LowOctet, HighOctet;
    Residue(r);
  }

  // ---------------------------------------------------------------- the slave

  datatype SlaveState = Init | Idle | FrameRcv | SendFrame | Stop

  /** The buffer's contents after one more octet: when it is full the last octet is overwritten. */
  function Kept(s: octets, b: bv8): octets {
    if |s| < BUFFER_LEN then s + [b] else s[..|s| - 1] + [b]
  }

  function KeptAll(s: octets, more: octets): octets
    decreases |more|
  {
    if more == [] then s else KeptAll(Kept(s, more[0]), more[1..])
  }

  /** Of too long a frame the first octets and the very last one are kept. */
  lemma {:induction false} KeptAllMeaning(s: octets, more: octets)
    requires |s| <= BUFFER_LEN
    ensures KeptAll(s, more) ==
            if |s + more| <= BUFFER_LEN then s + more
            else (s + more)[..BUFFER_LEN - 1] + [(s + more)[|s + more| - 1]]
    decreases |more|
  {
    if more == [] {
      assert s + more == s;
    } else {
      var t := Kept(s, more[0]);
      KeptAllMeaning(t, more[1..]);
      if |s| < BUFFER_LEN {
        assert t + more[1..] == s + more;
      } else if |more| > 1 {
        assert (t + more[1..])[..BUFFER_LEN - 1] == (s + more)[..BUFFER_LEN - 1];
      }
    }
  }

  class Slave {
    const buffer: array<bv8>
    var state: SlaveState
    var recvByteCount: nat
    var sentByteCount: nat
    var totalByteToSend: nat
    var txEnabled: bool
    var rxEnabled: bool

    ghost predicate Valid()
      reads this, buffer
    {
      && buffer.Length == BUFFER_LEN && recvByteCount <= BUFFER_LEN && totalByteToSend <= BUFFER_LEN
      && (state.SendFrame? && totalByteToSend > 0 ==> sentByteCount == 0)
    }

    predicate ReplyWaits()
      reads this
    {
      state.SendFrame? && totalByteToSend > 0
    }

    /** The reply waiting to be sent, if there is one, is a frame that the other side will accept. */
    ghost predicate Intact()
      reads this, buffer
      requires Valid()
    {
      ReplyWaits() ==> Accepts(buffer[..totalByteToSend])
    }

    /** Where the next octet is stored. */
    function StoredAt(): nat
      reads this
    {
      if recvByteCount < BUFFER_LEN then recvByteCount else BUFFER_LEN - 1
    }

    ghost function Received(): octets
      reads this, buffer
      requires Valid()
    {
      buffer[..recvByteCount]
    }

    constructor ()
      ensures Valid() && state.Init? && recvByteCount == 0 && !txEnabled && !rxEnabled && fresh(buffer)
    {
      buffer := new bv8[BUFFER_LEN](_ => 0);
      state := Init;
      recvByteCount, sentByteCount, totalByteToSend := 0, 0, 0;
      txEnabled, rxEnabled := false, false;
    }

    method SetState(s: SlaveState)
      requires Valid()
      modifies this
      ensures Valid() && state == s && totalByteToSend == old(totalByteToSend)
      ensures recvByteCount == if s.Idle? || s.Stop? then 0 else old(recvByteCount)
      ensures rxEnabled == match s case Idle => true case SendFrame => false case Stop => false case _ => old(rxEnabled)
    {
      state := s;
      match s {
        case Idle =>
          recvByteCount := 0;
          txEnabled, rxEnabled := false, true;
        case SendFrame =>
          sentByteCount := 0;
          txEnabled, rxEnabled := true, false;
        case Stop =>
          txEnabled, rxEnabled := false, false;
          sentByteCount, recvByteCount := 0, 0;
        case Init =>
        case FrameRcv =>
      }
    }

    /**
     * An octet arrives. In the port to this board that can happen in any state, as switching reception off has no
     * effect there; a reply that is waiting then stays intact exactly if the octet is stored behind it or is the one
     * that stood there anyway.
     */
    method PortByteReceived(b: bv8)
      requires Valid()
      modifies this`recvByteCount, buffer
      ensures Valid() && Received() == Kept(old(Received()), b)
      ensures old(ReplyWaits() && Intact()) ==>
                (Intact() <==> old(StoredAt()) >= totalByteToSend || old(buffer[StoredAt()]) == b)
    {
      ghost var reply, at := buffer[..totalByteToSend], StoredAt();
      if recvByteCount < buffer.Length {
        buffer[recvByteCount] := b;
      } else {
        recvByteCount := buffer.Length - 1;
        buffer[recvByteCount] := b;
      }
      recvByteCount := recvByteCount + 1;
      if at < totalByteToSend && Accepts(reply) {
        assert buffer[..totalByteToSend] == reply[at := b];
        OneOctetChanged(reply, at, b);
      } else {
        assert at >= totalByteToSend ==> buffer[..totalByteToSend] == reply;
      }
    }

    method ValidateFrame() returns (ok: bool)
      requires Valid()
      ensures ok <==> Accepts(Received())
    {
      if recvByteCount < FRAME_MIN_LEN {
        return false;
      }
      var crc := Crc16Get(buffer, recvByteCount);
      ok := crc == 0;
    }

    /** The request in the buffer is overwritten by its reply and the reply's checksum. */
    method ProcessFrame(regs: octets)
      requires Valid() && !state.SendFrame? && |regs| >= READ_DATA_NUM_REGS
      modifies this`totalByteToSend, buffer
      ensures Valid() && buffer[..totalByteToSend] == Checked(Reply(old(buffer[..]), regs))
      ensures Accepts(buffer[..totalByteToSend])
    {
      hide Crc, LowOctet, HighOctet, Reply;
      BuildReply(regs);
      AppendChecksum();
    }

    method BuildReply(regs: octets)
      requires Valid() && !state.SendFrame? && |regs| >= READ_DATA_NUM_REGS
      modifies this`totalByteToSend, buffer
      ensures totalByteToSend == |Reply(old(buffer[..]), regs)|
      ensures buffer[..totalByteToSend] == Reply(old(buffer[..]), regs)
    {
      hide Accepts, Number, Writable;
      var functionCode := buffer[0];
      var address := Number(buffer[1], buffer[2]);
      var regLen := Number(buffer[3], buffer[4]);
      if functionCode == REG_READ_CMD {
        if Readable(address, regLen) {
          ReadRegisters(address - READ_DATA_REG_START, regLen, regs);
          totalByteToSend := 5 + regLen;
        } else {
          PutError(ERR_CODE | functionCode, REG_ERR_ADDR);
        }
      } else if functionCode == REG_WRITE_CMD {
        var code := WriteCode(address, regLen);
        PutError(if code != REG_SUCCESS then ERR_CODE | functionCode else functionCode, code);
      } else {
        PutError(ERR_CODE, REG_ERR_FUNC_CODE);
      }
    }

    method ReadRegisters(index: nat, len: nat, regs: octets)
      requires buffer.Length == BUFFER_LEN && index + len <= READ_DATA_NUM_REGS <= |regs|
      modifies buffer
      ensures buffer[..5 + len] == old(buffer[..5]) + regs[index..index + len]
    {
      for k := 0 to len
        invariant buffer[..5 + k] == old(buffer[..5]) + regs[index..index + k]
      {
        buffer[5 + k] := regs[index + k];
        assert buffer[..5 + (k + 1)] == buffer[..5 + k] + [regs[index + k]];
      }
    }

    method PutError(functionCode: bv8, code: bv8)
      requires buffer.Length == BUFFER_LEN
      modifies this`totalByteToSend, buffer
      ensures totalByteToSend == 6 && buffer[..6] == [functionCode] + old(buffer[1..5]) + [code]
    {
      buffer[0] := functionCode;
      totalByteToSend := 5;
      buffer[totalByteToSend] := code;
      totalByteToSend := totalByteToSend + 1;
    }

    method AppendChecksum()
      requires buffer.Length == BUFFER_LEN && 5 <= totalByteToSend <= BUFFER_LEN - 2
      modifies this`totalByteToSend, buffer
      ensures totalByteToSend == old(totalByteToSend) + 2
      ensures buffer[..totalByteToSend] == Checked(old(buffer[..totalByteToSend]))
      ensures Accepts(buffer[..totalByteToSend])
    {
      hide Crc;
      ghost var r := buffer[..totalByteToSend];
      var checksum := Crc16Get(buffer, totalByteToSend);
      buffer[totalByteToSend] := LowOctet(checksum);
      buffer[totalByteToSend + 1] := HighOctet(checksum);
      totalByteToSend := totalByteToSend + 2;
      assert buffer[..totalByteToSend] == Checked(r);
      CheckedIsAccepted(r);
    }

    /** Sends what is waiting; with nothing waiting the slave listens again. */
    method PortTxEmpty() returns (sent: octets)
      requires Valid() && state.SendFrame?
      modifies this
      ensures Valid()
      ensures sent == old(buffer[..totalByteToSend])
      ensures old(totalByteToSend) > 0 ==> state.SendFrame? && totalByteToSend == 0
      ensures old(totalByteToSend) == 0 ==> state.Idle?
    {
      sent := [];
      if totalByteToSend > 0 {
        while totalByteToSend > 0
          invariant 0 <= totalByteToSend <= old(totalByteToSend)
          invariant sentByteCount + totalByteToSend == old(totalByteToSend)
          invariant sent == old(buffer[..totalByteToSend])[..sentByteCount] && buffer.Length == BUFFER_LEN
          invariant state.SendFrame? && recvByteCount == old(recvByteCount)
          decreases totalByteToSend
        {
          if sentByteCount < buffer.Length {
            sent := sent + [buffer[sentByteCount]];
            sentByteCount := sentByteCount + 1;
          }
          totalByteToSend := totalByteToSend - 1;
        }
      } else {
        SetState(Idle);
      }
    }

    /**
     * One turn of the state machine; `elapsed` says that the line has been silent long enough. A reply is prepared only
     * for a valid frame and is then valid itself; what is sent is what stands in the buffer.
     */
    method Poll(elapsed: bool, regs: octets) returns (sent: octets)
      requires Valid() && |regs| >= READ_DATA_NUM_REGS
      modifies this, buffer
      ensures Valid()
      ensures sent == if old(ReplyWaits()) then old(buffer[..totalByteToSend]) else []
      ensures sent != [] && old(Intact()) ==> Accepts(sent)
      ensures old(Intact()) ==> Intact()
      ensures state.SendFrame? && !old(state.SendFrame?) ==> Intact()
      ensures state.SendFrame? && !old(state.SendFrame?) ==>
                && old(state.FrameRcv?) && elapsed && Accepts(old(Received()))
                && buffer[..totalByteToSend] == Checked(Reply(old(buffer[..]), regs))
      ensures old(state.FrameRcv?) && elapsed ==> state == if Accepts(old(Received())) then SendFrame else Idle
      ensures old(state.Idle?) ==>
                state == if old(recvByteCount >= 1 && (buffer[0] == 1 || buffer[0] == 2)) then FrameRcv else Idle
    {
      hide Accepts, Reply, Checked;
      sent := [];
      match state {
        case Idle =>
          if recvByteCount >= 1 {
            if buffer[0] == 0x01 || buffer[0] == 0x02 {
              SetState(FrameRcv);
            } else {
              SetState(Idle);
            }
          }
        case FrameRcv =>
          if elapsed {
            txEnabled, rxEnabled := false, false;
            var ok := ValidateFrame();
            if ok {
              ProcessFrame(regs);
              SetState(SendFrame);
            } else {
              SetState(Idle);
            }
          }
        case SendFrame =>
          sent := PortTxEmpty();
        case Init =>
        case Stop =>
      }
    }
  }
}
