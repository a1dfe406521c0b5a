/**
 * The nucleotide alphabet of the index (class DNAStatesShifted): the
 * character <-> code table and the packing of codes two bits each, four to
 * a byte, the earliest code in the lowest bits.
 *
 * Java bytes are modelled as `bv8`; every shift and mask of the source is
 * taken modulo 2^8, which is what the `(byte)` casts of the source do.
 */
module DnaStates {
  import opened Util

  type Byte = bv8

  /** NonIUPACStateException: the character that is not an IUPAC nucleotide. */
  datatype NonIupacState = NonIupacState(c: char)

  /** The decoded symbol of each code. */
  const States: seq<char> := ['A', 'T', 'C', 'G', 'N', '-', '.']

  /** The table stateToByte goes through: code i is stored as byte i. */
  const Bytes: seq<Byte> := [0, 1, 2, 3, 4, 5, 6]

  /** N, gap and the padding dot are the "ambiguous" codes. */
  const AmbiguousStates: nat := 3

  /** Masks of the four 2-bit slots of a packed byte, slot 0 lowest. */
  const Masks: seq<Byte> := [0x03, 0x0C, 0x30, 0xC0]

  function Upper(c: char): char
  {
    if 'a' <= c <= 'z' then (c as int - 32) as char else c
  }

  /** IUPAC ambiguity letters other than N, in either case, accepted and read as N. */
  predicate IsIupacAmbiguity(c: char)
  {
    Upper(c) in {'R', 'Y', 'S', 'W', 'K', 'M', 'B', 'D', 'H', 'V'}
  }

  /** The symbol a valid character stands for: upper case, U as T, ambiguity letters as N. */
  function Canonical(c: char): char
  {
    var u := Upper(c);
    if u == 'U' then 'T' else if IsIupacAmbiguity(u) then 'N' else u
  }

  /** charToByte: the code of a character, or the exception for a non-IUPAC one. */
  function CharToByte(c: char): (r: Result<Byte, NonIupacState>)
    ensures r.Ok? <==> c in {'A', 'a', 'T', 't', 'U', 'u', 'C', 'c', 'G', 'g', 'N', 'n', '-', '.'} || IsIupacAmbiguity(c)
    ensures r.Err? ==> r.error == NonIupacState(c)
  {
    match c
    case 'a' | 'A' => Ok(0)
    case 't' | 'T' | 'u' | 'U' => Ok(1)
    case 'c' | 'C' => Ok(2)
    case 'g' | 'G' => Ok(3)
    case 'N' | 'n' => Ok(4)
    case '-' => Ok(5)
    case '.' => Ok(6)
    case _ =>
      // the source also logs a warning for an ambiguity letter; logging is not modelled
      if IsIupacAmbiguity(c) then Ok(4) else Err(NonIupacState(c))
  }

  /** The code table of charToByte for the four nucleotides. */
  lemma CharToByteNucleotides(c: char)
    ensures CharToByte(c) == Ok(0) <==> c in {'A', 'a'}
    ensures CharToByte(c) == Ok(1) <==> c in {'T', 't', 'U', 'u'}
    ensures CharToByte(c) == Ok(2) <==> c in {'C', 'c'}
    ensures CharToByte(c) == Ok(3) <==> c in {'G', 'g'}
  {
  }

  /** The code table of charToByte for N (and the ambiguity letters read as N), the gap and the dot. */
  lemma CharToByteOthers(c: char)
    ensures CharToByte(c) == Ok(4) <==> c in {'N', 'n'} || IsIupacAmbiguity(c)
    ensures CharToByte(c) == Ok(5) <==> c == '-'
    ensures CharToByte(c) == Ok(6) <==> c == '.'
  {
  }

  /** byteToState: the symbol of a code. */
  function ByteToState(b: Byte): (r: char)
    requires b < 7
    ensures r in {'A', 'T', 'C', 'G', 'N', '-', '.'}
  {
    States[b]
  }

  /** stateToByte: charToByte looked up through the byte table. */
  function StateToByte(c: char): (r: Result<Byte, NonIupacState>)
    ensures r == CharToByte(c)
  {
    match CharToByte(c)
    case Ok(b) => Ok(Bytes[b])
    case Err(e) => Err(e)
  }

  /** stateToInt: the code as an int, after rewriting 'U' as 'T'. */
  function StateToInt(c: char): (r: Result<int, NonIupacState>)
    ensures r.Ok? <==> StateToByte(c).Ok?
    ensures r.Ok? ==> r.value == StateToByte(c).value as int
    ensures r.Err? ==> r.error == StateToByte(c).error
  {
    var d := if c == 'U' then 'T' else c;
    match CharToByte(d)
    case Ok(b) => Ok(Bytes[b] as int)
    case Err(e) => Err(e)
  }

  /** getStateCount */
  function GetStateCount(): (r: nat)
    ensures r == 7
    ensures forall b: Byte :: b < r as Byte ==> ByteToState(b) in States
  {
    |States|
  }

  /** getNonAmbiguousStatesCount: A, T, C, G, the codes that fit in two bits. */
  function GetNonAmbiguousStatesCount(): (r: nat)
    ensures r == 4
    ensures forall b: Byte :: b < 7 ==> (b < r as Byte <==> ByteToState(b) in {'A', 'T', 'C', 'G'})
  {
    |States| - AmbiguousStates
  }

  /** Decoding the code of a valid character gives its canonical symbol. */
  lemma DecodeEncodeIsCanonical(c: char)
    requires StateToByte(c).Ok?
    ensures StateToByte(c).value < 7
    ensures ByteToState(StateToByte(c).value) == Canonical(c)
  {
    var u := Upper(c);
    assert Upper(u) == u;
    if IsIupacAmbiguity(c) {
      assert u != 'U' && IsIupacAmbiguity(u);
    } else if 'a' <= c <= 'z' {
      assert c in {'a', 't', 'u', 'c', 'g', 'n'};
    } else {
      assert u == c && c in {'A', 'T', 'U', 'C', 'G', 'N', '-', '.'};
    }
  }

  /** Encoding the symbol of a code gives the code back. */
  lemma EncodeDecodeIsIdentity(b: Byte)
    requires b < 7
    ensures StateToByte(ByteToState(b)) == Ok(b)
  {
  }

  /** charToByte treats a lower-case letter as its upper-case form. */
  lemma CharToByteIgnoresCase(c: char)
    requires 'a' <= c <= 'z'
    ensures CharToByte(c).Ok? <==> CharToByte(Upper(c)).Ok?
    ensures CharToByte(c).Ok? ==> CharToByte(c).value == CharToByte(Upper(c)).value
  {
    var u := Upper(c);
    assert u as int == c as int - 32 && Upper(u) == u;
    if !IsIupacAmbiguity(c) && c !in {'a', 't', 'u', 'c', 'g', 'n'} {
      assert u !in {'A', 'a', 'T', 't', 'U', 'u', 'C', 'c', 'G', 'g', 'N', 'n', '-', '.'};
    }
  }

  /** getSequence: the symbols of a code sequence. */
  method GetSequence(bytes: seq<Byte>) returns (s: string)
    requires forall i :: 0 <= i < |bytes| ==> bytes[i] < 7
    ensures |s| == |bytes|
    ensures forall i :: 0 <= i < |bytes| ==> s[i] == ByteToState(bytes[i])
  {
    var c := new char[|bytes|];
    for i := 0 to c.Length
      invariant forall t :: 0 <= t < i ==> c[t] == ByteToState(bytes[t])
    {
      c[i] := States[bytes[i]];
    }
    s := c[..];
  }

  // ---------------------------------------------------------------- packing

  /** The 2-bit slot t (0..3) of a packed byte. */
  function Slot(b: Byte, t: nat): (r: Byte)
    requires t < 4
    ensures r < 4
  {
    (b >> (2 * t)) & 3
  }

  /**
   * An accumulated byte with one more code or-ed into 2-bit slot t: the
   * shift by 2t of the packing loop, written out slot by slot.
   */
  function ShiftIn(acc: Byte, code: Byte, t: nat): Byte
    requires t < 4
  {
    acc | (if t == 0 then code else if t == 1 then code << 2 else if t == 2 then code << 4 else code << 6)
  }

  /** The byte holding a group of at most four codes, code t shifted by 2t. */
  function PackGroup(g: seq<Byte>): Byte
    requires |g| <= 4
  {
    if g == [] then 0 else ShiftIn(PackGroup(g[..|g| - 1]), g[|g| - 1], |g| - 1)
  }

  /** The packed form of a code sequence: byte j holds codes 4j .. 4j+3. */
  function Packed(codes: seq<Byte>): (r: seq<Byte>)
    ensures |r| == (|codes| + 3) / 4
  {
    seq((|codes| + 3) / 4, j requires 0 <= j < (|codes| + 3) / 4 =>
      PackGroup(codes[4 * j .. Min(4 * j + 4, |codes|)]))
  }

  /** The unpacked form: k symbols, symbol p read from slot p % 4 of byte p / 4; missing bytes give '\0'. */
  function Expanded(mer: seq<Byte>, k: nat): (r: seq<char>)
    ensures |r| == k
  {
    seq(k, p requires 0 <= p < k =>
      if p / 4 < |mer| then ByteToState(Slot(mer[p / 4], p % 4)) else '\0')
  }

  /** A packed group written out: code t shifted by 2t, or-ed together. */
  lemma {:induction false} PackGroupForm(g: seq<Byte>)
    requires |g| <= 4
    ensures PackGroup(g) == (if |g| > 0 then g[0] else 0) | (if |g| > 1 then g[1] << 2 else 0)
                          | (if |g| > 2 then g[2] << 4 else 0) | (if |g| > 3 then g[3] << 6 else 0)
  {
    if g != [] {
      var h := g[..|g| - 1];
      PackGroupForm(h);
      assert forall i :: 0 <= i < |h| ==> h[i] == g[i];
    }
  }

  /** Four codes below 4, each shifted into its own slot, read back slot by slot. */
  lemma SlotsOfFour(a: Byte, b: Byte, c: Byte, d: Byte)
    requires a < 4 && b < 4 && c < 4 && d < 4
    ensures Slot(a | (b << 2) | (c << 4) | (d << 6), 0) == a
    ensures Slot(a | (b << 2) | (c << 4) | (d << 6), 1) == b
    ensures Slot(a | (b << 2) | (c << 4) | (d << 6), 2) == c
    ensures Slot(a | (b << 2) | (c << 4) | (d << 6), 3) == d
  {
  }

  /** Each code below 4 sits in its own slot of a packed group; slots past the group are zero. */
  lemma PackGroupSlots(g: seq<Byte>)
    requires |g| <= 4
    requires forall i :: 0 <= i < |g| ==> g[i] < 4
    ensures forall t :: 0 <= t < 4 ==> Slot(PackGroup(g), t) == if t < |g| then g[t] else 0
  {
    PackGroupForm(g);
    var a: Byte := if |g| > 0 then g[0] else 0;
    var b: Byte := if |g| > 1 then g[1] else 0;
    var c: Byte := if |g| > 2 then g[2] else 0;
    var d: Byte := if |g| > 3 then g[3] else 0;
    assert PackGroup(g) == a | (b << 2) | (c << 4) | (d << 6);
    SlotsOfFour(a, b, c, d);
  }

  /** compressMer's layout: code i is in bits 2(i%4)..2(i%4)+1 of byte i/4, when every code is below 4. */
  lemma PackedSlots(codes: seq<Byte>, i: nat)
    requires forall t :: 0 <= t < |codes| ==> codes[t] < 4
    requires i < 4 * |Packed(codes)|
    ensures Slot(Packed(codes)[i / 4], i % 4) == if i < |codes| then codes[i] else 0
  {
    var j := i / 4;
    var g := codes[4 * j .. Min(4 * j + 4, |codes|)];
    PackGroupSlots(g);
    assert Packed(codes)[j] == PackGroup(g);
    if i < |codes| {
      assert g[i % 4] == codes[i];
    }
  }

  /** Unpacking what was packed gives back the symbols, when every code is below 4. */
  lemma {:induction false} ExpandPackedRoundTrip(codes: seq<Byte>)
    requires forall t :: 0 <= t < |codes| ==> codes[t] < 4
    ensures Expanded(Packed(codes), |codes|) == seq(|codes|, i requires 0 <= i < |codes| => ByteToState(codes[i]))
  {
    forall i | 0 <= i < |codes|
      ensures Expanded(Packed(codes), |codes|)[i] == ByteToState(codes[i])
    {
      PackedSlots(codes, i);
    }
  }

  /** The two-bit slots cannot hold codes 4..6: an N packed before an A turns the A into a T. */
  lemma AmbiguousCodeSpillsIntoNeighbour()
    ensures Expanded(Packed([4, 0]), 2) == ['A', 'T']
  {
    var codes: seq<Byte> := [4, 0];
    PackGroupForm(codes);
    assert codes[0 .. Min(4, 2)] == codes;
    assert Packed(codes) == [4];
    var e := Expanded(Packed(codes), 2);
    assert e[0] == ByteToState(Slot(4, 0)) == 'A';
    assert e[1] == ByteToState(Slot(4, 1)) == 'T';
  }

  /** The slot read through a mask and a shift, as expandMer does, is the slot itself. */
  lemma MaskedSlot(b: Byte, j: nat)
    requires j < 4
    ensures (b & Masks[j]) >> (2 * j) == Slot(b, j)
  {
  }

  /** Adding the next code of a group shifts it into the next free slot. */
  lemma PackGroupSnoc(bytes: seq<Byte>, start: nat, i: nat)
    requires start <= i < |bytes| && i - start < 4
    ensures PackGroup(bytes[start .. i + 1]) == ShiftIn(PackGroup(bytes[start .. i]), bytes[i], i - start)
  {
    assert bytes[start .. i + 1][.. i - start] == bytes[start .. i];
  }

  /** The first index of the group that holds code i - 1 (0 before any code is read). */
  function GroupStart(i: nat): (r: nat)
    ensures r % 4 == 0 && r <= i
    ensures i > 0 ==> i - 1 < r + 4
  {
    if i == 0 then 0 else 4 * ((i - 1) / 4)
  }

  /** Byte j of the packed form is the group of codes 4j .. 4j+3 (fewer in the last byte). */
  lemma PackedAt(codes: seq<Byte>, j: nat)
    requires j < (|codes| + 3) / 4
    ensures Packed(codes)[j] == PackGroup(codes[4 * j .. Min(4 * j + 4, |codes|)])
  {
  }

  /** One round of compressMer's loop: code i joins the group of codes that started at GroupStart(i + 1). */
  lemma CompressStep(bytes: seq<Byte>, i: nat)
    requires i < |bytes|
    ensures GroupStart(i + 1) == if i % 4 == 0 then i else GroupStart(i)
    ensures i % 4 == 0 ==> PackGroup(bytes[GroupStart(i + 1) .. i]) == 0
    ensures PackGroup(bytes[GroupStart(i + 1) .. i + 1]) ==
      ShiftIn(PackGroup(bytes[GroupStart(i + 1) .. i]), bytes[i], i % 4)
  {
    PackGroupSnoc(bytes, GroupStart(i + 1), i);
  }

  /** When i closes a full group, the accumulated group is packed byte i/4 - 1. */
  lemma CompressFlush(bytes: seq<Byte>, i: nat)
    requires 0 < i <= |bytes| && i % 4 == 0
    ensures GroupStart(i) == 4 * (i / 4 - 1) && i == 4 * (i / 4) && i / 4 - 1 < (|bytes| + 3) / 4
  {
  }

  /** At the end, the last group accumulated is the last packed byte. */
  lemma CompressLast(bytes: seq<Byte>)
    requires |bytes| > 0
    ensures GroupStart(|bytes|) / 4 == (|bytes| + 3) / 4 - 1
    ensures PackGroup(bytes[GroupStart(|bytes|) .. |bytes|]) == Packed(bytes)[(|bytes| + 3) / 4 - 1]
  {
    PackedAt(bytes, (|bytes| + 3) / 4 - 1);
  }

  /** compressMer: packs codes four to a byte, ceil(n/4) bytes. */
  method CompressMer(bytes: seq<Byte>) returns (kmer: seq<Byte>)
    ensures |kmer| == (|bytes| + 3) / 4
    ensures kmer == Packed(bytes)
  {
    var byteCount := (|bytes| + 3) / 4;
    var out := new Byte[byteCount](_ => 0);
    var insertions := 0;
    var fourBasesByte := PackFullGroups(bytes, out);
    // the last group, full or not, always takes the last byte
    if insertions < out.Length {
      CompressLast(bytes);
      out[out.Length - 1] := fourBasesByte;
    }
    kmer := out[..];
    forall j | 0 <= j < |kmer|
      ensures kmer[j] == Packed(bytes)[j]
    {
      PackedAt(bytes, j);
    }
  }

  /**
   * The loop of compressMer: every group that a later code closes is stored,
   * and the codes of the last group are returned packed but not yet stored.
   */
  method PackFullGroups(bytes: seq<Byte>, out: array<Byte>) returns (fourBasesByte: Byte)
    requires out.Length == (|bytes| + 3) / 4
    modifies out
    ensures fourBasesByte == PackGroup(bytes[GroupStart(|bytes|) .. |bytes|])
    ensures forall j :: 0 <= j < GroupStart(|bytes|) / 4 ==> out[j] == PackGroup(bytes[4 * j .. 4 * j + 4])
  {
    fourBasesByte := 0;
    var i := 0;
    ghost var stored: nat := 0;
    while i < |bytes|
      invariant 0 <= i <= |bytes|
      invariant 4 * stored == GroupStart(i)
      invariant fourBasesByte == PackGroup(bytes[GroupStart(i) .. i])
      invariant forall j :: 0 <= j < stored ==> out[j] == PackGroup(bytes[4 * j .. 4 * j + 4])
    {
      if i > 0 && i % 4 == 0 {
        CompressFlush(bytes, i);
        out[i / 4 - 1] := fourBasesByte;
        fourBasesByte := 0;
        stored := stored + 1;
      }
      CompressStep(bytes, i);
      fourBasesByte := ShiftIn(fourBasesByte, bytes[i], i % 4);
      i := i + 1;
    }
    assert stored == GroupStart(|bytes|) / 4;
  }

  /** expandMer: reads k symbols back, two bits each, ignoring the unused slots of the last byte. */
  method ExpandMer(mer: seq<Byte>, k: nat) returns (charMer: seq<char>)
    ensures |charMer| == k
    ensures forall p :: 0 <= p < k && p / 4 < |mer| ==> charMer[p] == ByteToState(Slot(mer[p / 4], p % 4))
    ensures forall p :: 0 <= p < k && p / 4 >= |mer| ==> charMer[p] == '\0'
  {
    var out := new char[k](_ => '\0');
    var i := 0;
    while i < |mer|
      invariant 0 <= i <= |mer|
      invariant forall p :: 0 <= p < k ==> out[p] == if p < 4 * i then Expanded(mer, k)[p] else '\0'
    {
      var b := mer[i];
      var j := 0;
      while j < 4 && i * 4 + j <= k - 1
        invariant 0 <= j <= 4
        invariant forall p :: 0 <= p < k ==> out[p] == if p < 4 * i + j then Expanded(mer, k)[p] else '\0'
      {
        // (b & mask) >> 2j, the source's masking and shifting on a byte
        var residue := (b & Masks[j]) >> (2 * j);
        MaskedSlot(b, j);
        out[i * 4 + j] := ByteToState(residue);
        j := j + 1;
      }
      i := i + 1;
    }
    charMer := out[..];
  }
}
