/** The primitive readers: a cursor over the packet's bytes and the current presence map. */
module Reader {
  import opened Bits
  import opened StopBit
  import opened Decode
  import opened PresenceMap
  import opened Fields

  /** Where dissection stands: bytes still to come, and the presence map with the bits used so far. */
  datatype Pos = Pos(offset: nat, bytes: seq<byte>, pmap: seq<bool>, idx: nat) {
    function Skip(k: nat): Pos
      requires k <= |bytes|
    {
      this.(offset := offset + k, bytes := bytes[k..])
    }
    /** The stop-bit string the cursor stands at; empty when no stop bit is left. */
    function Next(): seq<byte> { bytes[..CountStop(bytes)] }
    function SkipNext(): Pos { Skip(CountStop(bytes)) }
    /** Another position of the same packet and presence map, not behind this one. */
    predicate Leads(q: Pos) {
      && offset <= q.offset && q.offset + |q.bytes| == offset + |bytes|
      && q.pmap == pmap && idx <= q.idx
    }
  }

  function ShiftPmap(p: Pos): (bool, Pos) {
    if p.idx >= |p.pmap| then (false, p) else (p.pmap[p.idx], p.(idx := p.idx + 1))
  }

  predicate PeekPmap(p: Pos) { p.idx < |p.pmap| && p.pmap[p.idx] }

  function ShiftNull(p: Pos): (bool, Pos) {
    if p.bytes != [] && p.bytes[0] == 0x80 then (true, p.Skip(1)) else (false, p)
  }

  function ReadPmap(p: Pos): Pos {
    p.SkipNext().(pmap := PmapBits(p.Next()), idx := 0)
  }

  /** The value that was read, whether or not it carries the error. */
  function Read(num: int, outOfRange: bool, c: Cell): Cell {
    Cell(if outOfRange then Error(2) else c.status, c.value.(num := num))
  }

  function ReadUnsigned(w: Width, p: Pos, c: Cell): Cell {
    Read(w.WrapUnsigned(Value(p.Next())), UnsignedOutOfRange(w, p.Next()), c)
  }

  function ReadSigned(w: Width, p: Pos, c: Cell): Cell {
    Read(w.WrapSigned(SignedValue(p.Next())), SignedOutOfRange(w, p.Next()), c)
  }

  function Unmark(s: seq<byte>): (t: seq<byte>)
    ensures |t| == |s|
  {
    if s == [] then [] else s[..|s| - 1] + [s[|s| - 1] % 128]
  }

  /** strlen: up to the first NUL. */
  function StrLen(s: seq<byte>): (n: nat)
    ensures n <= |s|
  {
    if s == [] || s[0] == 0 then 0 else 1 + StrLen(s[1..])
  }

  function CString(s: seq<byte>): seq<byte> { s[..StrLen(s)] }

  function ReadAscii(p: Pos, c: Cell): Cell {
    Holding(c, CString(Unmark(p.Next())))
  }

  // ---------- the imperative readers ----------

  class DissectPosition {
    var offjmp: nat
    var offset: nat
    var nbytes: nat
    var bytes: seq<byte>     // from the cursor on
    var pmapLen: nat
    var pmapIdx: nat
    var pmap: seq<bool>

    constructor (offset: nat, bytes: seq<byte>)
      ensures Valid() && View() == Pos(offset, bytes, [], 0)
    {
      offjmp, this.offset, nbytes, this.bytes := 0, offset, |bytes|, bytes;
      pmapLen, pmapIdx, pmap := 0, 0, [];
    }

    predicate Valid()
      reads this
    {
      nbytes == |bytes| && pmapLen == |pmap|
    }

    function View(): Pos
      reads this
    {
      Pos(offset, bytes, pmap, pmapIdx)
    }

    method ShiftBytes()
      requires Valid() && offjmp <= nbytes
      modifies this
      ensures Valid() && View() == old(View()).Skip(old(offjmp))
    {
      offset := offset + offjmp;
      nbytes := nbytes - offjmp;
      bytes := bytes[offjmp..];
      offjmp := 0;
    }

    method DissectShiftPmap() returns (bit: bool)
      requires Valid()
      modifies this
      ensures Valid() && (bit, View()) == ShiftPmap(old(View()))
    {
      if pmapIdx >= pmapLen { return false; }
      bit := pmap[pmapIdx];
      pmapIdx := pmapIdx + 1;
    }

    method DissectPeekPmap() returns (bit: bool)
      requires Valid()
      ensures bit == PeekPmap(View())
    {
      if pmapIdx >= pmapLen { return false; }
      bit := pmap[pmapIdx];
    }

    method DissectShiftNull() returns (isNull: bool)
      requires Valid()
      modifies this
      ensures Valid() && (isNull, View()) == ShiftNull(old(View()))
    {
      isNull := false;
      if nbytes > 0 {
        if bytes[0] == 0x80 {
          isNull := true;
          offjmp := 1;
          ShiftBytes();
        }
      }
    }
  }

  /** The two positions may be the same object. Without a stop bit the presence map stays empty
      and nothing is consumed. */
  method BasicDissectPmap(parent: DissectPosition, position: DissectPosition)
    requires parent.Valid()
    modifies position
    ensures position.Valid() && position.View() == ReadPmap(old(parent.View()))
  {
    position.offjmp := parent.offjmp;
    position.offset := parent.offset;
    position.nbytes := parent.nbytes;
    position.bytes := parent.bytes;
    position.pmapLen := 0;
    position.pmapIdx := 0;
    position.pmap := [];
    ghost var was := position.bytes;
    position.offjmp := CountStopBitEncoded(position.nbytes, position.bytes);
    assert was[..|was|] == was;
    position.pmapLen := position.offjmp * 7;
    if position.pmapLen == 0 {
      assert was[..0] == [] && was[0..] == was;
      return;
    }
    var bits := new bool[position.pmapLen];
    DecodePmap(position.offjmp, position.bytes, bits);
    position.pmap := bits[..];
    position.ShiftBytes();
  }

  /** basic_dissect_uint32 and basic_dissect_uint64: D2 exactly when there are too many groups
      or their number does not fit; otherwise that number is the result. */
  method BasicDissectUint(w: Width, position: DissectPosition, fdata: FieldData)
    requires position.Valid()
    modifies position, fdata`nbytes, fdata`status, fdata`value
    ensures position.Valid() && position.View() == old(position.View()).SkipNext()
    ensures fdata.ToCell() == ReadUnsigned(w, old(position.View()), old(fdata.ToCell()))
    ensures fdata.nbytes == CountStop(old(position.bytes))
  {
    ghost var was := position.bytes;
    position.offjmp := CountStopBitEncoded(position.nbytes, position.bytes);
    assert was[..|was|] == was;
    fdata.nbytes := position.offjmp;
    StoppedAt(was);
    var n := DecodeUnsigned(w, position.offjmp, position.bytes);
    fdata.value := fdata.value.(num := n);
    UnsignedAcceptance(w, was[..CountStop(was)]);
    if w.MaxBytes() == fdata.nbytes {
      if And(position.bytes[0], w.ExtraBits()) > 0 {
        fdata.ErrD(2);
      }
    } else if w.MaxBytes() < fdata.nbytes {
      fdata.ErrD(2);
    }
    position.ShiftBytes();
  }

  method BasicDissectInt(w: Width, position: DissectPosition, fdata: FieldData)
    requires position.Valid()
    modifies position, fdata
    ensures position.Valid() && position.View() == old(position.View()).SkipNext()
    ensures fdata.ToCell() == ReadSigned(w, old(position.View()), old(fdata.ToCell()))
    ensures fdata.nbytes == CountStop(old(position.bytes))
  {
    ghost var was := position.bytes;
    position.offjmp := CountStopBitEncoded(position.nbytes, position.bytes);
    assert was[..|was|] == was;
    fdata.nbytes := position.offjmp;
    StoppedAt(was);
    var n := DecodeSigned(w, position.offjmp, position.bytes);
    fdata.value := fdata.value.(num := n);
    SignedAcceptance(w, was[..CountStop(was)]);
    if w.MaxBytes() == fdata.nbytes {
      if And(position.bytes[0], w.SignBit()) == w.SignBit() {
        if And(position.bytes[0], w.ExtraBits()) != w.ExtraBits() {
          fdata.ErrD(2);
        }
      } else {
        if And(position.bytes[0], w.ExtraBits()) != 0 {
          fdata.ErrD(2);
        }
      }
    } else if w.MaxBytes() < fdata.nbytes {
      fdata.ErrD(2);
    }
    position.ShiftBytes();
  }

  lemma {:induction false} StoppedAt(s: seq<byte>)
    ensures CountStop(s) > 0 ==> NoStop(s[..CountStop(s) - 1]) && s[..CountStop(s)][0] == s[0]
  {
    var n := CountStop(s);
    CountStopFinds(s);
    if n > 0 {
      assert s[..n][..n - 1] == s[..n - 1];
    }
  }

  method StringLength(str: seq<byte>) returns (len: nat)
    ensures len == StrLen(str)
  {
    len := 0;
    while len < |str| && str[len] != 0
      invariant len <= |str| && StrLen(str) == len + StrLen(str[len..])
    {
      len := len + 1;
    }
    assert StrLen(str[len..]) == 0;
  }

  method BasicDissectAsciiString(position: DissectPosition, fdata: FieldData)
    requires position.Valid()
    modifies position, fdata
    ensures position.Valid() && position.View() == old(position.View()).SkipNext()
    ensures fdata.ToCell() == ReadAscii(old(position.View()), old(fdata.ToCell()))
  {
    ghost var was := position.bytes;
    position.offjmp := CountStopBitEncoded(position.nbytes, position.bytes);
    assert was[..|was|] == was;
    var nbytes := position.offjmp;
    fdata.nbytes := nbytes;
    var str := position.bytes[..nbytes];
    if nbytes > 0 {
      DataMask(str[nbytes - 1]);
      str := str[nbytes - 1 := And(str[nbytes - 1], 0x7F)];
    }
    assert str == Unmark(was[..nbytes]);
    var len := StringLength(str);
    fdata.SetBytes(str[..len]);
    position.ShiftBytes();
  }
}
