/** The variadic wire codec of XPlaneUDP.hpp: `packSize`, `pack` and `unpack`.
    A field is either a string, copied verbatim with no terminator, or a
    fundamental value, copied as its `sizeof` bytes. */
module Codec {
  import opened Bytes

  datatype Field =
    | Str(text: seq<byte>)
    | Word(width: nat, bits: nat)

  /** A fundamental value has a width `sizeof` can give, and its pattern fits it. */
  predicate ValidField(f: Field) {
    f.Word? ==> IsWidth(f.width) && f.bits < Pow256(f.width)
  }

  predicate ValidFields(fs: seq<Field>) {
    forall i :: 0 <= i < |fs| ==> ValidField(fs[i])
  }

  predicate AllWords(fs: seq<Field>) {
    forall i :: 0 <= i < |fs| ==> fs[i].Word?
  }

  /** The bytes memcpy copies for one field. */
  function FieldBytes(f: Field): (r: seq<byte>)
  {
    match f
    case Str(text) => text
    case Word(width, bits) => WordBytes(width, bits)
  }

  /** The fields' bytes, one after the other. */
  function Encoded(fs: seq<Field>): seq<byte>
  {
    if fs == [] then [] else FieldBytes(fs[0]) + Encoded(fs[1..])
  }

  /** `packSize`: the offset reached after all fields, accumulated field by
      field from `offset` as the source's recursion does. */
  function PackSize(offset: nat, fs: seq<Field>): (r: nat)
    ensures r == offset + |Encoded(fs)|
    decreases |fs|
  {
    if fs == [] then offset
    else
      match fs[0]
      case Str(text) => PackSize(offset + |text|, fs[1..])
      case Word(width, _) => PackSize(offset + width, fs[1..])
  }

  /** Splitting the field list splits the encoding at the same place. */
  lemma {:induction false} EncodedAppend(fs: seq<Field>, gs: seq<Field>)
    ensures Encoded(fs + gs) == Encoded(fs) + Encoded(gs)
  {
    if fs == [] {
      assert fs + gs == gs;
    } else {
      assert (fs + gs)[1..] == fs[1..] + gs;
      EncodedAppend(fs[1..], gs);
    }
  }

  /** The buffer s with the bytes from `at` on replaced by bs. */
  function Spliced(s: seq<byte>, at: nat, bs: seq<byte>): (r: seq<byte>)
    requires at + |bs| <= |s|
    ensures |r| == |s|
  {
    s[..at] + bs + s[at + |bs|..]
  }

  /** Writing a then b right after it is writing a + b. */
  lemma SplicedTwice(s: seq<byte>, at: nat, a: seq<byte>, b: seq<byte>)
    requires at + |a| + |b| <= |s|
    ensures Spliced(Spliced(s, at, a), at + |a|, b) == Spliced(s, at, a + b)
  {
    var lhs, rhs := Spliced(Spliced(s, at, a), at + |a|, b), Spliced(s, at, a + b);
    forall m | 0 <= m < |s|
      ensures lhs[m] == rhs[m]
    {
      if m < at {
      } else if m < at + |a| {
        assert rhs[m] == (a + b)[m - at];
      } else if m < at + |a| + |b| {
        assert rhs[m] == (a + b)[m - at];
      }
    }
  }

  /** memcpy of `bs` to `buf` at `at`. */
  method CopyBytes(buf: array<byte>, at: nat, bs: seq<byte>)
    requires at + |bs| <= buf.Length
    modifies buf
    ensures buf[..] == Spliced(old(buf[..]), at, bs)
  {
    var j := 0;
    while j < |bs|
      invariant 0 <= j <= |bs|
      invariant forall m :: 0 <= m < buf.Length ==> buf[m] == if at <= m < at + j then bs[m - at] else old(buf[m])
    {
      buf[at + j] := bs[j];
      j := j + 1;
    }
    assert forall m :: 0 <= m < buf.Length ==> buf[..][m] == Spliced(old(buf[..]), at, bs)[m];
  }

  /** `pack`: writes the first field at `offset`, then the rest after it, and
      returns the offset just past the last field. The bytes from `offset`
      up to the returned offset hold the fields' encoding; no other byte
      changes. The caller sizes the buffer with `packSize`; nothing is
      checked here. */
  method Pack(buf: array<byte>, offset: nat, fields: seq<Field>) returns (next: nat)
    requires PackSize(offset, fields) <= buf.Length
    modifies buf
    ensures next == PackSize(offset, fields)
    ensures buf[..] == Spliced(old(buf[..]), offset, Encoded(fields))
    decreases |fields|
  {
    if fields == [] {
      next := offset;
      assert Spliced(old(buf[..]), offset, []) == old(buf[..]);
      return;
    }
    var bs := FieldBytes(fields[0]);
    assert Encoded(fields) == bs + Encoded(fields[1..]);
    assert PackSize(offset, fields) == PackSize(offset + |bs|, fields[1..]);
    CopyBytes(buf, offset, bs);
    next := Pack(buf, offset + |bs|, fields[1..]);
    SplicedTwice(old(buf[..]), offset, bs, Encoded(fields[1..]));
  }

  /** The `sizeof` of each fundamental field. */
  function Widths(fs: seq<Field>): (r: seq<nat>)
    requires AllWords(fs)
    ensures |r| == |fs|
  {
    if fs == [] then [] else [fs[0].width] + Widths(fs[1..])
  }

  /** The bit pattern of each fundamental field. */
  function Values(fs: seq<Field>): (r: seq<nat>)
    requires AllWords(fs)
    ensures |r| == |fs|
  {
    if fs == [] then [] else [fs[0].bits] + Values(fs[1..])
  }

  function Sum(ws: seq<nat>): nat
  {
    if ws == [] then 0 else ws[0] + Sum(ws[1..])
  }

  /** `unpack`: reads one word per width, the first at `offset` and each next
      one right after the previous. The container is only read. */
  function Unpack(container: seq<byte>, offset: nat, widths: seq<nat>): (r: seq<nat>)
    requires offset + Sum(widths) <= |container|
    ensures |r| == |widths|
    decreases |widths|
  {
    if widths == [] then []
    else [WordValue(container[offset..offset + widths[0]])]
         + Unpack(container, offset + widths[0], widths[1..])
  }

  /** Where `unpack` reads the i-th word: `offset`, moved on by each width before it. */
  function Start(offset: nat, widths: seq<nat>, i: nat): nat
    requires i <= |widths|
    decreases i
  {
    if i == 0 then offset else Start(offset + widths[0], widths[1..], i - 1)
  }

  /** The i-th word comes from the bytes at its start, one width long. */
  lemma {:induction false} UnpackReadsConsecutive(container: seq<byte>, offset: nat, widths: seq<nat>, i: nat)
    requires offset + Sum(widths) <= |container|
    requires i < |widths|
    ensures Start(offset, widths, i) + widths[i] <= |container|
    ensures Unpack(container, offset, widths)[i]
         == WordValue(container[Start(offset, widths, i)..Start(offset, widths, i) + widths[i]])
    decreases i
  {
    hide *;
    if i == 0 {
      UnpackFirst(container, offset, widths);
    } else {
      StartStep(offset, widths, i);
      UnpackStep(container, offset, widths, i);
      UnpackReadsConsecutive(container, offset + widths[0], widths[1..], i - 1);
      assert widths[1..][i - 1] == widths[i];
    }
  }

  /** The start of the i-th word is `offset` plus the widths before it. */
  lemma {:induction false} StartIsPrefixSum(offset: nat, widths: seq<nat>, i: nat)
    requires i <= |widths|
    ensures Start(offset, widths, i) == offset + Sum(widths[..i])
    decreases i
  {
    if i > 0 {
      SumPrefixStep(widths, i);
      StartIsPrefixSum(offset + widths[0], widths[1..], i - 1);
    }
  }

  /** Starts move with the offset: reading from `offset` is reading from 0 shifted by it. */
  lemma {:induction false} StartShift(offset: nat, widths: seq<nat>, i: nat)
    requires i <= |widths|
    ensures Start(offset, widths, i) == offset + Start(0, widths, i)
    decreases i
  {
    if i > 0 {
      StartShift(offset + widths[0], widths[1..], i - 1);
      StartShift(widths[0], widths[1..], i - 1);
    }
  }

  lemma StartZero(widths: seq<nat>)
    ensures Start(0, widths, 0) == 0
  {
  }

  /** The next word starts where this one ends. */
  lemma {:induction false} StartNext(offset: nat, widths: seq<nat>, i: nat)
    requires i < |widths|
    ensures Start(offset, widths, i + 1) == Start(offset, widths, i) + widths[i]
    decreases i
  {
    if i > 0 {
      StartNext(offset + widths[0], widths[1..], i - 1);
    }
  }

  /** The i-th word, when its start from 0 is known to be `at`. */
  lemma UnpackAt(container: seq<byte>, offset: nat, widths: seq<nat>, i: nat, at: nat)
    requires offset + Sum(widths) <= |container| && i < |widths|
    requires Start(0, widths, i) == at
    ensures offset + at + widths[i] <= |container|
    ensures Unpack(container, offset, widths)[i] == WordValue(container[offset + at..offset + at + widths[i]])
  {
    StartShift(offset, widths, i);
    UnpackReadsConsecutive(container, offset, widths, i);
  }

  lemma StartStep(offset: nat, widths: seq<nat>, i: nat)
    requires 0 < i <= |widths|
    ensures Start(offset, widths, i) == Start(offset + widths[0], widths[1..], i - 1)
  {
  }

  /** The first word is read at the offset itself. */
  lemma UnpackFirst(container: seq<byte>, offset: nat, widths: seq<nat>)
    requires offset + Sum(widths) <= |container|
    requires 0 < |widths|
    ensures Start(offset, widths, 0) + widths[0] <= |container|
    ensures Unpack(container, offset, widths)[0]
         == WordValue(container[Start(offset, widths, 0)..Start(offset, widths, 0) + widths[0]])
  {
    hide WordValue, Pow256;
  }

  /** The i-th word read from offset is the (i-1)-th read after the first. */
  lemma UnpackStep(container: seq<byte>, offset: nat, widths: seq<nat>, i: nat)
    requires offset + Sum(widths) <= |container|
    requires 0 < i < |widths|
    ensures offset + widths[0] + Sum(widths[1..]) <= |container|
    ensures Unpack(container, offset, widths)[i] == Unpack(container, offset + widths[0], widths[1..])[i - 1]
  {
  }

  /** The widths before the i-th are the first one and those of the tail before it. */
  lemma SumPrefixStep(ws: seq<nat>, i: nat)
    requires 0 < i <= |ws|
    ensures Sum(ws[..i]) == ws[0] + Sum(ws[1..][..i - 1])
  {
    assert ws[..i][1..] == ws[1..][..i - 1];
  }

  /** The bytes of s from `at` on are the encoding of fundamental fields fs. */
  ghost predicate HoldsWords(s: seq<byte>, at: nat, fs: seq<Field>) {
    AllWords(fs) && ValidFields(fs)
    && at + |Encoded(fs)| <= |s| && s[at..at + |Encoded(fs)|] == Encoded(fs)
  }

  /** Round trip: wherever a buffer holds the encoding of fundamental
      fields, unpacking their widths at that offset gives back their values. */
  lemma {:induction false} UnpackEncoded(s: seq<byte>, at: nat, fs: seq<Field>)
    requires HoldsWords(s, at, fs)
    ensures at + Sum(Widths(fs)) <= |s|
    ensures Unpack(s, at, Widths(fs)) == Values(fs)
    decreases |fs|
  {
    WidthsSum(fs);
    assert AllWords(fs) && at + Sum(Widths(fs)) <= |s|;
    if fs == [] {
      assert Unpack(s, at, Widths(fs)) == Values(fs);
    }
    hide *;
    if fs != [] {
      HoldsWordsTail(s, at, fs);
      UnpackEncoded(s, at + fs[0].width, fs[1..]);
      UnpackCons(s, at, fs);
    }
  }

  /** Where a buffer holds the encoding of a word and more fields, the word
      reads back as its value and the rest of the encoding follows it. */
  lemma HoldsWordsTail(s: seq<byte>, at: nat, fs: seq<Field>)
    requires fs != [] && HoldsWords(s, at, fs)
    ensures fs[0].Word? && at + fs[0].width <= |s|
    ensures WordValue(s[at..at + fs[0].width]) == fs[0].bits
    ensures HoldsWords(s, at + fs[0].width, fs[1..])
  {
    FieldsTail(fs);
    EncodedHead(s, at, fs);
    WordRoundTrip(fs[0].width, fs[0].bits);
  }

  lemma FieldsTail(fs: seq<Field>)
    requires fs != [] && AllWords(fs) && ValidFields(fs)
    ensures fs[0].Word? && ValidField(fs[0]) && AllWords(fs[1..]) && ValidFields(fs[1..])
  {
    assert forall i :: 0 <= i < |fs| - 1 ==> fs[1..][i] == fs[i + 1];
  }

  /** Unpacking the widths of a word and more fields: the word first, then the rest. */
  lemma UnpackCons(s: seq<byte>, at: nat, fs: seq<Field>)
    requires fs != [] && AllWords(fs)
    requires at + Sum(Widths(fs)) <= |s|
    ensures AllWords(fs[1..]) && at + fs[0].width + Sum(Widths(fs[1..])) <= |s|
    ensures Unpack(s, at, Widths(fs))
         == [WordValue(s[at..at + fs[0].width])] + Unpack(s, at + fs[0].width, Widths(fs[1..]))
    ensures Values(fs) == [fs[0].bits] + Values(fs[1..])
  {
    assert forall i :: 0 <= i < |fs| - 1 ==> fs[1..][i] == fs[i + 1];
    assert Widths(fs) == [fs[0].width] + Widths(fs[1..]);
    assert Values(fs) == [fs[0].bits] + Values(fs[1..]);
  }

  /** Where a buffer holds the encoding of a word and more fields, it holds
      the word's bytes first and the rest's encoding right after. */
  lemma EncodedHead(s: seq<byte>, at: nat, fs: seq<Field>)
    requires fs != [] && fs[0].Word?
    requires at + |Encoded(fs)| <= |s| && s[at..at + |Encoded(fs)|] == Encoded(fs)
    ensures at + fs[0].width + |Encoded(fs[1..])| <= |s|
    ensures s[at..at + fs[0].width] == WordBytes(fs[0].width, fs[0].bits)
    ensures s[at + fs[0].width..at + fs[0].width + |Encoded(fs[1..])|] == Encoded(fs[1..])
  {
    hide *;
    EncodedWordCons(fs);
    SliceSplit(s, at, WordBytes(fs[0].width, fs[0].bits), Encoded(fs[1..]));
  }

  /** The encoding of a word and more fields: the word's bytes, then the rest's. */
  lemma EncodedWordCons(fs: seq<Field>)
    requires fs != [] && fs[0].Word?
    ensures Encoded(fs) == WordBytes(fs[0].width, fs[0].bits) + Encoded(fs[1..])
  {
  }

  /** A window holding a + b holds a first and b right after it. */
  lemma SliceSplit(s: seq<byte>, at: nat, a: seq<byte>, b: seq<byte>)
    requires at + |a + b| <= |s| && s[at..at + |a + b|] == a + b
    ensures s[at..at + |a|] == a && s[at + |a|..at + |a| + |b|] == b
  {
    assert s[at..at + |a|] == (a + b)[..|a|];
    assert s[at + |a|..at + |a| + |b|] == (a + b)[|a|..];
  }

  /** `unpack` after `pack`: reading fundamental fields back at the offset
      where they were packed gives their values, whatever the buffer held. */
  lemma UnpackPack(before: seq<byte>, offset: nat, fs: seq<Field>)
    requires AllWords(fs) && ValidFields(fs)
    requires offset + |Encoded(fs)| <= |before|
    ensures offset + Sum(Widths(fs)) <= |before|
    ensures Unpack(Spliced(before, offset, Encoded(fs)), offset, Widths(fs)) == Values(fs)
  {
    var e := Encoded(fs);
    var s := Spliced(before, offset, e);
    assert s[offset..offset + |e|] == e;
    UnpackEncoded(s, offset, fs);
  }

  lemma {:induction false} WidthsSum(fs: seq<Field>)
    requires AllWords(fs)
    ensures Sum(Widths(fs)) == |Encoded(fs)|
  {
    if fs != [] {
      WidthsSum(fs[1..]);
      assert Widths(fs)[1..] == Widths(fs[1..]);
    }
  }
}
