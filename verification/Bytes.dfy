/** Bytes and the little-endian integer fields read with `struct.unpack('<H'/'<I'/'<i')`
    and written with `struct.pack`. */
module Bytes {
  import opened Wrappers

  type byte = x: int | 0 <= x < 0x100
  type u16 = x: int | 0 <= x < 0x1_0000
  type u32 = x: int | 0 <= x < 0x1_0000_0000
  type i32 = x: int | -0x8000_0000 <= x < 0x8000_0000

  /** `struct.unpack_from('<H', s, i)` */
  function U16At(s: seq<byte>, i: nat): u16
    requires i + 2 <= |s|
  {
    s[i] as int + 0x100 * s[i + 1] as int
  }

  /** `struct.unpack_from('<I', s, i)` */
  function U32At(s: seq<byte>, i: nat): u32
    requires i + 4 <= |s|
  {
    s[i] as int + 0x100 * s[i + 1] as int + 0x1_0000 * s[i + 2] as int + 0x100_0000 * s[i + 3] as int
  }

  /** `struct.unpack_from('<i', s, i)`: the same four bytes read as two's complement. */
  function I32At(s: seq<byte>, i: nat): i32
    requires i + 4 <= |s|
  {
    var u := U32At(s, i);
    if u < 0x8000_0000 then u else u - 0x1_0000_0000
  }

  /** `struct.pack('<H', v)` */
  function U16Bytes(v: u16): (s: seq<byte>)
    ensures |s| == 2 && U16At(s, 0) == v
  {
    [v % 0x100, v / 0x100]
  }

  /** `struct.pack('<I', v)` */
  function U32Bytes(v: u32): (s: seq<byte>)
    ensures |s| == 4 && U32At(s, 0) == v
  {
    var b0 := v % 0x100;
    var r0 := v / 0x100;
    var b1 := r0 % 0x100;
    var r1 := r0 / 0x100;
    var b2 := r1 % 0x100;
    var b3 := r1 / 0x100;
    assert v == b0 + 0x100 * r0 && r0 == b1 + 0x100 * r1 && r1 == b2 + 0x100 * b3;
    assert b3 < 0x100;
    [b0, b1, b2, b3]
  }

  /** `struct.pack('<i', v)`: the two's complement pattern of `v`. */
  function I32Bytes(v: i32): (s: seq<byte>)
    ensures |s| == 4 && I32At(s, 0) == v
  {
    U32Bytes(if v < 0 then v + 0x1_0000_0000 else v)
  }

  /** A field encoded in the middle of a buffer reads back at its offset. */
  lemma U16Within(p: seq<byte>, v: u16, q: seq<byte>)
    ensures U16At(p + U16Bytes(v) + q, |p|) == v
  {
    var s := p + U16Bytes(v) + q;
    assert s[|p|..|p| + 2] == U16Bytes(v);
    assert s[|p|] == U16Bytes(v)[0] && s[|p| + 1] == U16Bytes(v)[1];
  }

  lemma U32Within(p: seq<byte>, v: u32, q: seq<byte>)
    ensures U32At(p + U32Bytes(v) + q, |p|) == v
  {
    var s := p + U32Bytes(v) + q;
    var e := U32Bytes(v);
    assert s[|p|] == e[0] && s[|p| + 1] == e[1] && s[|p| + 2] == e[2] && s[|p| + 3] == e[3];
  }

  lemma I32Within(p: seq<byte>, v: i32, q: seq<byte>)
    ensures I32At(p + I32Bytes(v) + q, |p|) == v
  {
    U32Within(p, if v < 0 then v + 0x1_0000_0000 else v, q);
  }

  /** Reading depends only on the bytes read. */
  lemma U32Frame(s: seq<byte>, t: seq<byte>, i: nat, j: nat)
    requires i + 4 <= |s| && j + 4 <= |t| && s[i..i + 4] == t[j..j + 4]
    ensures U32At(s, i) == U32At(t, j)
  {
    assert s[i] == s[i..i + 4][0] && s[i + 1] == s[i..i + 4][1];
    assert s[i + 2] == s[i..i + 4][2] && s[i + 3] == s[i..i + 4][3];
    assert t[j] == t[j..j + 4][0] && t[j + 1] == t[j..j + 4][1];
    assert t[j + 2] == t[j..j + 4][2] && t[j + 3] == t[j..j + 4][3];
  }

  lemma U16Frame(s: seq<byte>, t: seq<byte>, i: nat, j: nat)
    requires i + 2 <= |s| && j + 2 <= |t| && s[i..i + 2] == t[j..j + 2]
    ensures U16At(s, i) == U16At(t, j)
  {
    assert s[i] == s[i..i + 2][0] && s[i + 1] == s[i..i + 2][1];
    assert t[j] == t[j..j + 2][0] && t[j + 1] == t[j..j + 2][1];
  }

  /** Inside a copy of `t` sitting at `i`, each slice of `t` sits `i` further on. */
  lemma SubSlice(s: seq<byte>, i: nat, t: seq<byte>, j: nat, k: nat)
    requires i + |t| <= |s| && s[i..i + |t|] == t && j <= k <= |t|
    ensures s[i + j..i + k] == t[j..k]
  {
    forall x | 0 <= x < k - j
      ensures s[i + j..i + k][x] == t[j..k][x]
    {
      assert s[i + j + x] == s[i..i + |t|][j + x];
    }
  }

  /** A u16 field of `t`, read where a copy of `t` sits in `s`. */
  lemma U16Field(s: seq<byte>, i: nat, t: seq<byte>, j: nat)
    requires i + |t| <= |s| && s[i..i + |t|] == t && j + 2 <= |t|
    ensures U16At(s, i + j) == U16At(t, j)
  {
    SubSlice(s, i, t, j, j + 2);
    U16Frame(s, t, i + j, j);
  }

  /** A u32 field of `t`, read where a copy of `t` sits in `s`. */
  lemma U32Field(s: seq<byte>, i: nat, t: seq<byte>, j: nat)
    requires i + |t| <= |s| && s[i..i + |t|] == t && j + 4 <= |t|
    ensures U32At(s, i + j) == U32At(t, j)
  {
    SubSlice(s, i, t, j, j + 4);
    U32Frame(s, t, i + j, j);
  }

  /** A byte of `t`, read where a copy of `t` sits in `s`. */
  lemma ByteField(s: seq<byte>, i: nat, t: seq<byte>, j: nat)
    requires i + |t| <= |s| && s[i..i + |t|] == t && j < |t|
    ensures s[i + j] == t[j]
  {
    assert s[i..i + |t|][j] == t[j];
  }

  /** A run of `n` copies of byte `b` (`bytes(n)` for b = 0). */
  function Fill(n: nat, b: byte): (s: seq<byte>)
    ensures |s| == n && forall i :: 0 <= i < n ==> s[i] == b
  {
    seq(n, _ => b)
  }

  /** `s[offset:offset + n]` (and equally `seek(offset)` then `read(n)`): the bytes
      that are there, possibly fewer than `n`, none past the end. */
  function Window(s: seq<byte>, offset: nat, n: nat): (r: seq<byte>)
    ensures |r| <= n
    ensures offset + n <= |s| ==> r == s[offset..offset + n]
    ensures offset + n > |s| ==> r == if offset < |s| then s[offset..] else []
  {
    if offset >= |s| then [] else s[offset..if offset + n < |s| then offset + n else |s|]
  }

  /** `(major, minor)`, compared as a Python tuple. */
  type Version = (byte, byte)

  predicate AtLeast(v: Version, major: byte, minor: byte) {
    v.0 > major || (v.0 == major && v.1 >= minor)
  }

  /** Text stored as bytes, one character per byte: the latin-1 reading. The
      UTF-8 and EUC-KR decodings tried before it are not modelled; all of them
      leave ASCII unchanged. */
  function Decode(name: seq<byte>): (s: string)
    ensures |s| == |name| && forall i :: 0 <= i < |name| ==> s[i] as int == name[i]
  {
    seq(|name|, i requires 0 <= i < |name| => name[i] as char)
  }

  /** `s.encode('latin-1')`, one byte per character; the characters past 255,
      where the encoding fails, are told apart by `Latin1`. */
  function Encode(s: string): (b: seq<byte>)
    ensures |b| == |s| && forall i :: 0 <= i < |s| ==> b[i] == s[i] as int % 256
  {
    seq(|s|, i requires 0 <= i < |s| => s[i] as int % 256)
  }

  predicate Latin1(s: string) {
    forall i :: 0 <= i < |s| ==> s[i] as int < 256
  }

  /** Text every decoding the source tries (UTF-8, EUC-KR, latin-1) reads
      alike from its bytes. */
  predicate Ascii(s: string) {
    forall i :: 0 <= i < |s| ==> s[i] as int < 128
  }

  lemma DecodeEncode(s: string)
    requires Latin1(s)
    ensures Decode(Encode(s)) == s
  {
    var t := Decode(Encode(s));
    assert forall i :: 0 <= i < |s| ==> t[i] as int == s[i] as int;
  }

  /** Appending three pieces one after another appends their concatenation. */
  lemma AppendThree(out: seq<byte>, a: seq<byte>, b: seq<byte>, c: seq<byte>)
    ensures out + (a + b + c) == out + a + b + c
  {
  }

  /** A field reads back the value encoded in its four bytes. */
  lemma I32In(data: seq<byte>, offset: nat, v: i32)
    requires offset + 4 <= |data| && data[offset..offset + 4] == I32Bytes(v)
    ensures I32At(data, offset) == v
  {
    U32Frame(data, I32Bytes(v), offset, 0);
  }

  lemma U32In(data: seq<byte>, offset: nat, v: u32)
    requires offset + 4 <= |data| && data[offset..offset + 4] == U32Bytes(v)
    ensures U32At(data, offset) == v
  {
    U32Frame(data, U32Bytes(v), offset, 0);
  }

  /** `data` holds `b` from `offset` on, byte by byte. */
  predicate At(data: seq<byte>, offset: nat, b: seq<byte>)
    decreases |b|
  {
    offset + |b| <= |data| && (|b| == 0 || (data[offset] == b[0] && At(data, offset + 1, b[1..])))
  }

  /** Holding `b` at `offset` is having it as the slice there. */
  lemma {:induction false} AtSlice(data: seq<byte>, offset: nat, b: seq<byte>)
    ensures At(data, offset, b) <==> offset + |b| <= |data| && data[offset..offset + |b|] == b
    decreases |b|
  {
    if |b| > 0 && offset + |b| <= |data| {
      AtSlice(data, offset + 1, b[1..]);
      var w := data[offset..offset + |b|];
      assert w == [data[offset]] + data[offset + 1..offset + |b|];
      assert b == [b[0]] + b[1..];
    }
  }

  /** Two pieces laid side by side in a buffer can be read apart. */
  lemma Split(data: seq<byte>, offset: nat, a: seq<byte>, b: seq<byte>)
    requires At(data, offset, a + b)
    ensures At(data, offset, a) && At(data, offset + |a|, b)
  {
    AtSlice(data, offset, a + b);
    SubSlice(data, offset, a + b, 0, |a|);
    assert (a + b)[..|a|] == a;
    SubSlice(data, offset, a + b, |a|, |a| + |b|);
    assert (a + b)[|a|..] == b;
    AtSlice(data, offset, a);
    AtSlice(data, offset + |a|, b);
  }

  /** A piece of something held at `offset`. */
  lemma AtPart(data: seq<byte>, offset: nat, t: seq<byte>, j: nat, k: nat)
    requires At(data, offset, t) && j <= k <= |t|
    ensures At(data, offset + j, t[j..k])
  {
    AtSlice(data, offset, t);
    SubSlice(data, offset, t, j, k);
    AtSlice(data, offset + j, t[j..k]);
  }

  /** A held field reads back the value encoded in it. */
  lemma ReadI32(data: seq<byte>, offset: nat, v: i32)
    requires At(data, offset, I32Bytes(v))
    ensures I32At(data, offset) == v
  {
    AtSlice(data, offset, I32Bytes(v));
    I32In(data, offset, v);
  }

  lemma ReadU32(data: seq<byte>, offset: nat, v: u32)
    requires At(data, offset, U32Bytes(v))
    ensures U32At(data, offset) == v
  {
    AtSlice(data, offset, U32Bytes(v));
    U32In(data, offset, v);
  }

  /** Pieces written one after another into one buffer. */
  function Flatten(chunks: seq<seq<byte>>): seq<byte>
  {
    if |chunks| == 0 then [] else chunks[0] + Flatten(chunks[1..])
  }

  /** Appending a piece appends its bytes. */
  lemma {:induction false} FlattenLast(chunks: seq<seq<byte>>)
    requires |chunks| > 0
    ensures Flatten(chunks) == Flatten(chunks[..|chunks| - 1]) + chunks[|chunks| - 1]
  {
    var n := |chunks|;
    if n == 1 {
      assert chunks[..0] == [] && chunks[1..] == [];
    } else {
      var init := chunks[..n - 1];
      assert init[1..] == chunks[1..][..n - 2];
      FlattenLast(chunks[1..]);
      calc {
        Flatten(chunks);
        chunks[0] + Flatten(chunks[1..]);
        chunks[0] + (Flatten(init[1..]) + chunks[n - 1]);
        (init[0] + Flatten(init[1..])) + chunks[n - 1];
        Flatten(init) + chunks[n - 1];
      }
    }
  }

  /** Pieces of one size `k` take `k` bytes each. */
  lemma {:induction false} FlattenLength(chunks: seq<seq<byte>>, k: nat)
    requires forall i :: 0 <= i < |chunks| ==> |chunks[i]| == k
    ensures |Flatten(chunks)| == k * |chunks|
  {
    if |chunks| > 0 {
      FlattenLength(chunks[1..], k);
    }
  }

  /** The encodings of `xs`, one after another. */
  function Concat<T>(xs: seq<T>, enc: T --> seq<byte>): seq<byte>
    requires forall i :: 0 <= i < |xs| ==> enc.requires(xs[i])
  {
    Flatten(seq(|xs|, i requires 0 <= i < |xs| => enc(xs[i])))
  }

  lemma ConcatCons<T>(xs: seq<T>, enc: T --> seq<byte>)
    requires |xs| > 0 && forall i :: 0 <= i < |xs| ==> enc.requires(xs[i])
    ensures Concat(xs, enc) == enc(xs[0]) + Concat(xs[1..], enc)
  {
    var pieces := seq(|xs|, i requires 0 <= i < |xs| => enc(xs[i]));
    assert pieces[1..] == seq(|xs| - 1, i requires 0 <= i < |xs| - 1 => enc(xs[1..][i]));
  }

  /** Encodings of one size `k` take `k` bytes each. */
  lemma ConcatLength<T>(xs: seq<T>, enc: T --> seq<byte>, k: nat)
    requires forall i :: 0 <= i < |xs| ==> enc.requires(xs[i]) && |enc(xs[i])| == k
    ensures |Concat(xs, enc)| == k * |xs|
  {
    FlattenLength(seq(|xs|, i requires 0 <= i < |xs| => enc(xs[i])), k);
  }

  /** Moving the head of `xs` onto the end of `acc`. */
  lemma AppendHead<T>(acc: seq<T>, xs: seq<T>)
    requires |xs| > 0
    ensures acc + [xs[0]] + xs[1..] == acc + xs
  {
    assert [xs[0]] + xs[1..] == xs;
  }

  /** The first encoding and the rest, inside a buffer holding all of them. */
  lemma ConcatAt<T>(data: seq<byte>, offset: nat, xs: seq<T>, enc: T --> seq<byte>)
    requires |xs| > 0 && forall i :: 0 <= i < |xs| ==> enc.requires(xs[i])
    requires At(data, offset, Concat(xs, enc))
    ensures At(data, offset, enc(xs[0]))
    ensures At(data, offset + |enc(xs[0])|, Concat(xs[1..], enc))
    ensures |Concat(xs, enc)| == |enc(xs[0])| + |Concat(xs[1..], enc)|
  {
    hide At;
    ConcatCons(xs, enc);
    Split(data, offset, enc(xs[0]), Concat(xs[1..], enc));
  }

  /** A reader run `n` times from `offset`, each read starting where the last
      ended, its results appended to `acc`; the first failure fails it all. */
  function ReadAll<T>(data: seq<byte>, offset: nat, n: nat, acc: seq<T>,
                      read: (seq<byte>, nat) -> Option<(T, nat)>): (r: Option<(seq<T>, nat)>)
    ensures r.Some? ==> |r.value.0| == |acc| + n && r.value.0[..|acc|] == acc
    decreases n
  {
    if n == 0 then Some((acc, offset))
    else match read(data, offset)
      case None => None
      case Some((x, next)) => ReadAll(data, next, n - 1, acc + [x], read)
  }

  /** A reader run up to `n` times, stopping without failure at the end of the
      data or at the first read that fails, where the offset stays. */
  function ReadWhile<T>(data: seq<byte>, offset: nat, n: nat, acc: seq<T>,
                        read: (seq<byte>, nat) -> Option<(T, nat)>): (r: (seq<T>, nat))
    ensures |acc| <= |r.0| <= |acc| + n && r.0[..|acc|] == acc
    decreases n
  {
    if n == 0 || offset >= |data| then (acc, offset)
    else match read(data, offset)
      case None => (acc, offset)
      case Some((x, next)) => ReadWhile(data, next, n - 1, acc + [x], read)
  }

  /** `read` takes each encoding `enc(xs[i])` back to `ys[i]`, wherever it sits. */
  ghost predicate Inverts<X, T>(data: seq<byte>, xs: seq<X>, ys: seq<T>, enc: X --> seq<byte>,
                          read: (seq<byte>, nat) -> Option<(T, nat)>)
    requires forall i :: 0 <= i < |xs| ==> enc.requires(xs[i])
  {
    |xs| == |ys| &&
    forall off: nat, i :: 0 <= i < |xs| && At(data, off, enc(xs[i])) ==>
      read(data, off) == Some((ys[i], off + |enc(xs[i])|))
  }

  lemma InvertsTail<X, T>(data: seq<byte>, xs: seq<X>, ys: seq<T>, enc: X --> seq<byte>,
                          read: (seq<byte>, nat) -> Option<(T, nat)>)
    requires |xs| > 0 && forall i :: 0 <= i < |xs| ==> enc.requires(xs[i])
    requires Inverts(data, xs, ys, enc, read)
    ensures Inverts(data, xs[1..], ys[1..], enc, read)
  {
    forall off: nat, i | 0 <= i < |xs| - 1 && At(data, off, enc(xs[1..][i]))
      ensures read(data, off) == Some((ys[1..][i], off + |enc(xs[1..][i])|))
    {
      assert xs[1..][i] == xs[i + 1] && ys[1..][i] == ys[i + 1];
    }
  }

  /** Reading item by item undoes writing item by item. */
  lemma {:induction false} ReadAllConcat<X, T>(data: seq<byte>, offset: nat, xs: seq<X>, ys: seq<T>,
                                              enc: X --> seq<byte>, read: (seq<byte>, nat) -> Option<(T, nat)>, acc: seq<T>,
                                              total: seq<byte>)
    requires forall i :: 0 <= i < |xs| ==> enc.requires(xs[i])
    requires total == Concat(xs, enc) && Inverts(data, xs, ys, enc, read) && At(data, offset, total)
    ensures ReadAll(data, offset, |xs|, acc, read) == Some((acc + ys, offset + |total|))
    decreases |xs|
  {
    hide At;
    if |xs| == 0 {
      assert acc + ys == acc;
    } else {
      hide Concat;
      ConcatAt(data, offset, xs, enc);
      InvertsTail(data, xs, ys, enc, read);
      ReadAllConcat(data, offset + |enc(xs[0])|, xs[1..], ys[1..], enc, read, acc + [ys[0]],
                    Concat(xs[1..], enc));
      AppendHead(acc, ys);
    }
  }

  /** The same for the reader that stops early, when no encoding is empty. */
  lemma {:induction false} ReadWhileConcat<X, T>(data: seq<byte>, offset: nat, xs: seq<X>, ys: seq<T>,
                                                enc: X --> seq<byte>, read: (seq<byte>, nat) -> Option<(T, nat)>, acc: seq<T>,
                                                total: seq<byte>)
    requires forall i :: 0 <= i < |xs| ==> enc.requires(xs[i]) && |enc(xs[i])| > 0
    requires total == Concat(xs, enc) && Inverts(data, xs, ys, enc, read) && At(data, offset, total)
    ensures ReadWhile(data, offset, |xs|, acc, read) == (acc + ys, offset + |total|)
    decreases |xs|
  {
    if |xs| == 0 {
      assert acc + ys == acc;
    } else {
      hide Concat;
      ConcatAt(data, offset, xs, enc);
      InvertsTail(data, xs, ys, enc, read);
      ReadWhileConcat(data, offset + |enc(xs[0])|, xs[1..], ys[1..], enc, read, acc + [ys[0]],
                      Concat(xs[1..], enc));
      AppendHead(acc, ys);
    }
  }

  /** A loop that appends the encoding of each item to `out`, failing at the
      first item `fits` rejects, as `struct.pack` raises on a value it cannot
      encode. */
  method WriteEach<T>(out: seq<byte>, xs: seq<T>, fits: T -> bool, enc: T --> seq<byte>) returns (r: Option<seq<byte>>)
    requires forall x :: fits(x) ==> enc.requires(x)
    ensures (forall i :: 0 <= i < |xs| ==> fits(xs[i])) ==> r == Some(out + Concat(xs, enc))
    ensures !(forall i :: 0 <= i < |xs| ==> fits(xs[i])) ==> r == None
  {
    var w := out;
    ghost var pieces: seq<seq<byte>> := [];
    for i := 0 to |xs|
      invariant |pieces| == i && w == out + Flatten(pieces)
      invariant forall j :: 0 <= j < i ==> fits(xs[j]) && pieces[j] == enc(xs[j])
    {
      if !fits(xs[i]) {
        return None;
      }
      var piece := enc(xs[i]);
      pieces := pieces + [piece];
      FlattenLast(pieces);
      assert pieces[..i] == pieces[..|pieces| - 1];
      w := w + piece;
    }
    assert pieces == seq(|xs|, i requires 0 <= i < |xs| => enc(xs[i]));
    return Some(w);
  }
}
