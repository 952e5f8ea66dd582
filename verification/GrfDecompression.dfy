/** Fallback decompression for GRF entries: the LZSS decoder and the fixed
    order of decompression attempts (extractors/grf_decompression_fallback.py). */
module GrfDecompression {
  import opened Wrappers
  import opened Bytes

  // ---------------------------------------------------------------------------
  // LZSS
  // ---------------------------------------------------------------------------

  /** Decoder state between two tokens: input position, bytes produced, the
      current (shifted) control byte and how many of its bits were used. */
  datatype State = State(ip: nat, out: seq<byte>, ctrl: int, cnt: nat)

  /** Outcome of one pass of the decode loop. */
  datatype Step = Next(s: State) | Done(out: seq<byte>) | Invalid

  function Min(a: int, b: int): int { if a < b then a else b }

  /** A back-reference copied one byte at a time: each new byte is the one
      `dist` positions before it, which may itself have just been written. */
  function CopyBack(out: seq<byte>, dist: nat, n: nat): (r: seq<byte>)
    requires 0 < dist <= |out|
    ensures |r| == |out| + n && r[..|out|] == out
    ensures forall k :: |out| <= k < |r| ==> r[k] == r[k - dist]
    decreases n
  {
    if n == 0 then out
    else
      var r := CopyBack(out + [out[|out| - dist]], dist, n - 1);
      assert r[..|out|] == r[..|out| + 1][..|out|];
      r
  }

  /** `k` reduced below `d` by repeated subtraction (`k % d`). */
  function Wrap(k: nat, d: nat): (r: nat)
    requires d > 0
    ensures r < d
    decreases k
  {
    if k < d then k else Wrap(k - d, d)
  }

  /** The copied run repeats the last `dist` bytes before it periodically,
      so an overlapping reference re-reads bytes it has just produced. */
  lemma {:induction false} CopyBackPeriodic(out: seq<byte>, dist: nat, n: nat, k: nat)
    requires 0 < dist <= |out| && k < n
    ensures CopyBack(out, dist, n)[|out| + k] == out[|out| - dist + Wrap(k, dist)]
    decreases k
  {
    var r := CopyBack(out, dist, n);
    if k < dist {
      assert r[|out| + k] == r[|out| + k - dist] == r[..|out|][|out| + k - dist];
    } else {
      CopyBackPeriodic(out, dist, n, k - dist);
    }
  }

  /** Copying one more byte extends the previous copy by the byte `dist` back. */
  lemma {:induction false} CopyBackSnoc(out: seq<byte>, dist: nat, n: nat)
    requires 0 < dist <= |out|
    ensures CopyBack(out, dist, n + 1)
         == CopyBack(out, dist, n) + [CopyBack(out, dist, n)[|out| + n - dist]]
    decreases n
  {
    if n > 0 {
      CopyBackSnoc(out + [out[|out| - dist]], dist, n - 1);
    }
  }

  /** End of a token: shift the control byte, and after its eighth bit read a
      fresh control byte, or stop when the input is exhausted. */
  function Shift(data: seq<byte>, ip: nat, out: seq<byte>, ctrl: int, cnt: nat): (st: Step)
    requires ip <= |data|
    ensures st.Next? ==> st.s.ip >= ip && st.s.ip <= |data| && st.s.out == out && st.s.cnt < 8
    ensures st.Done? ==> st.out == out
    ensures !st.Invalid?
  {
    if cnt + 1 >= 8 then
      if ip >= |data| then Done(out) else Next(State(ip + 1, out, data[ip], 0))
    else Next(State(ip, out, ctrl / 2, cnt + 1))
  }

  /** One pass of the decode loop, entered with input left and room left. */
  function StepOnce(data: seq<byte>, L: nat, s: State): (st: Step)
    requires s.ip < |data| && |s.out| < L
    ensures st.Next? ==> s.ip < st.s.ip <= |data| && |s.out| < |st.s.out| <= L
    ensures st.Done? ==> |st.out| <= L
  {
    if s.ctrl % 2 == 0 then
      Shift(data, s.ip + 1, s.out + [data[s.ip]], s.ctrl, s.cnt)
    else if s.ip + 1 >= |data| then Done(s.out)
    else
      var cw := U16At(data, s.ip);
      var dist := cw % 0x1000;
      if dist == 0 || dist > |s.out| then Invalid
      else Shift(data, s.ip + 2, CopyBack(s.out, dist, Min(cw / 0x1000 + 2, L - |s.out|)), s.ctrl, s.cnt)
  }

  /** The decode loop from state `s`: the bytes produced when it stops, or
      None when it meets an invalid back-reference. */
  function Run(data: seq<byte>, L: nat, s: State): (r: Option<seq<byte>>)
    requires s.ip <= |data| && |s.out| <= L
    ensures r.Some? ==> |r.value| <= L
    decreases |data| - s.ip
  {
    if !(s.ip < |data| && |s.out| < L) then Some(s.out)
    else
      match StepOnce(data, L, s)
      case Next(s') => Run(data, L, s')
      case Done(o) => Some(o)
      case Invalid => None
  }

  /** What `lzss_decompress(data, L)` returns. */
  function LzssDecoded(data: seq<byte>, L: int): (r: Option<seq<byte>>)
    ensures |data| == 0 || L == 0 ==> r == Some([])
    ensures |data| > 0 && L < 0 ==> r == None
    ensures |data| > 0 && L > 0 && r.Some? ==> 9 * L <= 10 * |r.value| && |r.value| <= L
  {
    if |data| == 0 || L == 0 then Some([])
    else if L < 0 then None
    else
      match Run(data, L, State(1, [], data[0], 0))
      case None => None
      case Some(o) => if 10 * |o| < 9 * L then None else Some(o)
  }

  /** Unfolding the loop once from a state where it continues. */
  lemma RunStep(data: seq<byte>, L: nat, s: State)
    requires s.ip < |data| && |s.out| < L
    ensures StepOnce(data, L, s).Next? ==> Run(data, L, s) == Run(data, L, StepOnce(data, L, s).s)
    ensures StepOnce(data, L, s).Done? ==> Run(data, L, s) == Some(StepOnce(data, L, s).out)
    ensures StepOnce(data, L, s).Invalid? ==> Run(data, L, s) == None
  {
  }

  /** The byte-by-byte phrase copy of `lzss_decompress`, stopping when the
      buffer is full. */
  method CopyPhrase(output: array<byte>, op: nat, dist: nat, length: nat) returns (op': nat)
    requires 0 < dist <= op <= output.Length
    modifies output
    ensures op' == op + Min(length, output.Length - op)
    ensures output[..op'] == CopyBack(old(output[..op]), dist, op' - op)
  {
    ghost var prefix := output[..op];
    op' := op;
    var k := 0;
    while k < length && op' < output.Length
      invariant 0 <= k <= length && op' == op + k <= output.Length
      invariant output[..op'] == CopyBack(prefix, dist, k)
    {
      CopyBackSnoc(prefix, dist, k);
      ghost var before := output[..op'];
      output[op'] := output[op' - dist];
      assert output[..op' + 1] == before + [before[op' - dist]];
      op' := op' + 1;
      k := k + 1;
    }
  }

  /** How one pass of the decode loop ended. */
  datatype Outcome = Continue | Stop | Bad

  /** One pass of the `lzss_decompress` loop body: a literal or a phrase copy,
      then the control-byte shift. */
  method DecodeToken(data: seq<byte>, output: array<byte>, ip: nat, op: nat, control: byte, count: nat)
    returns (res: Outcome, ip': nat, op': nat, control': byte, count': nat)
    requires ip < |data| && op < output.Length && count < 8
    modifies output
    ensures res == Continue ==> ip' <= |data| && op' <= output.Length && count' < 8
    ensures res == Continue ==> StepOnce(data, output.Length, State(ip, old(output[..op]), control, count))
                                == Next(State(ip', output[..op'], control', count'))
    ensures res == Stop ==> op' <= output.Length
    ensures res == Stop ==> StepOnce(data, output.Length, State(ip, old(output[..op]), control, count))
                             == Done(output[..op'])
    ensures res == Bad ==> StepOnce(data, output.Length, State(ip, old(output[..op]), control, count)) == Invalid
  {
    res, ip', op' := ReadToken(data, output, ip, op, control, count);
    if res != Continue {
      return res, ip', op', control, count;
    }
    control' := control / 2;
    count' := count + 1;
    if count' >= 8 {
      if ip' >= |data| {
        res := Stop;
        return;
      }
      control' := data[ip'];
      ip' := ip' + 1;
      count' := 0;
    }
  }

  /** The token part of a pass: a literal byte, or a phrase copy read from a
      two-byte codeword. Continue leaves the control-byte shift to do. */
  method ReadToken(data: seq<byte>, output: array<byte>, ip: nat, op: nat, control: byte, count: nat)
    returns (res: Outcome, ip': nat, op': nat)
    requires ip < |data| && op < output.Length && count < 8
    modifies output
    ensures res == Continue ==> ip' <= |data| && op' <= output.Length
                                && StepOnce(data, output.Length, State(ip, old(output[..op]), control, count))
                                   == Shift(data, ip', output[..op'], control as int, count)
    ensures res == Stop ==> op' <= output.Length
                            && StepOnce(data, output.Length, State(ip, old(output[..op]), control, count))
                               == Done(output[..op'])
    ensures res == Bad ==> StepOnce(data, output.Length, State(ip, old(output[..op]), control, count)) == Invalid
  {
    ghost var s := State(ip, output[..op], control, count);
    if control % 2 == 0 {
      output[op] := data[ip];
      op' := op + 1;
      ip' := ip + 1;
      assert output[..op'] == s.out + [data[s.ip]];
      res := Continue;
    } else {
      res, ip', op' := ReadPhrase(data, output, ip, op);
      PhraseStep(data, output.Length, s);
    }
  }

  /** StepOnce on an odd control bit, spelled out. */
  lemma PhraseStep(data: seq<byte>, L: nat, s: State)
    requires s.ip < |data| && |s.out| < L && s.ctrl % 2 == 1
    ensures s.ip + 1 >= |data| ==> StepOnce(data, L, s) == Done(s.out)
    ensures s.ip + 1 < |data| && (U16At(data, s.ip) % 0x1000 == 0 || U16At(data, s.ip) % 0x1000 > |s.out|)
            ==> StepOnce(data, L, s) == Invalid
    ensures s.ip + 1 < |data| && 0 < U16At(data, s.ip) % 0x1000 <= |s.out|
            ==> StepOnce(data, L, s)
                == Shift(data, s.ip + 2, CopyBack(s.out, U16At(data, s.ip) % 0x1000,
                                                  Min(U16At(data, s.ip) / 0x1000 + 2, L - |s.out|)), s.ctrl, s.cnt)
  {
  }

  /** A phrase token: Stop when the codeword is cut short, Bad on a distance
      of 0 or one reaching before the start, otherwise the copy. */
  method ReadPhrase(data: seq<byte>, output: array<byte>, ip: nat, op: nat)
    returns (res: Outcome, ip': nat, op': nat)
    requires ip < |data| && op < output.Length
    modifies output
    ensures ip + 1 >= |data| ==> res == Stop && op' == op && output[..op'] == old(output[..op])
    ensures ip + 1 < |data| && (U16At(data, ip) % 0x1000 == 0 || U16At(data, ip) % 0x1000 > op) ==> res == Bad
    ensures ip + 1 < |data| && 0 < U16At(data, ip) % 0x1000 <= op
            ==> res == Continue && ip' == ip + 2
                && op' == op + Min(U16At(data, ip) / 0x1000 + 2, output.Length - op)
                && output[..op'] == CopyBack(old(output[..op]), U16At(data, ip) % 0x1000, op' - op)
  {
    ip', op' := ip, op;
    if ip + 1 >= |data| {
      return Stop, ip', op';
    }
    var codeword := data[ip] as int + 0x100 * data[ip + 1] as int;
    ip' := ip + 2;
    var length := codeword / 0x1000 + 2;
    var dist := codeword % 0x1000;
    if dist == 0 || dist > op {
      return Bad, ip', op';
    }
    op' := CopyPhrase(output, op, dist, length);
    res := Continue;
  }

  /** `lzss_decompress`: fills a preallocated buffer of the expected length. */
  method LzssDecompress(data: seq<byte>, L: int) returns (r: Option<seq<byte>>)
    ensures r == LzssDecoded(data, L)
  {
    if |data| == 0 || L == 0 {
      return Some([]);
    }
    if L < 0 {
      return None;
    }
    var output := new byte[L](_ => 0);
    var op := 0;
    var ip := 0;
    var n := |data|;
    var control := data[ip];
    ip := ip + 1;
    var count := 0;
    ghost var start := State(1, [], data[0], 0);
    while ip < n && op < L
      invariant 1 <= ip <= n && 0 <= op <= L && count < 8
      invariant Run(data, L, State(ip, output[..op], control, count)) == Run(data, L, start)
      decreases n - ip
    {
      RunStep(data, L, State(ip, output[..op], control, count));
      var res, ip', op', control', count' := DecodeToken(data, output, ip, op, control, count);
      if res == Bad {
        return None;
      }
      ip, op, control, count := ip', op', control', count';
      if res == Stop {
        break;
      }
    }
    if 10 * op < 9 * L {
      return None;
    }
    return Some(output[..op]);
  }

  // ---------------------------------------------------------------------------
  // Properties of the decoder
  // ---------------------------------------------------------------------------

  /** A stream of literals: a zero control byte before every group of up to
      eight input bytes. */
  function LiteralStream(x: seq<byte>): (s: seq<byte>)
    ensures |s| > |x|
    decreases |x|
  {
    if |x| <= 8 then [0] + x else [0] + x[..8] + LiteralStream(x[8..])
  }

  /** Inside one control group of clear bits, each token copies one input
      byte to the output: `j` tokens from input position `p` end at `q`. */
  lemma {:induction false} LiteralRun(data: seq<byte>, L: nat, p: nat, out: seq<byte>, c: nat, j: nat,
                                      q: nat, o: seq<byte>, d: nat)
    requires d == c + j < 8 && q == p + j <= |data| && |out| + j <= L && o == out + data[p..q]
    ensures Run(data, L, State(p, out, 0, c)) == Run(data, L, State(q, o, 0, d))
    decreases j
  {
    if j > 0 {
      var o1 := out + [data[p]];
      SliceAfterLiteral(data, p, j, out);
      LiteralStep(data, L, p, out, c);
      LiteralRun(data, L, p + 1, o1, c + 1, j - 1, q, o, d);
    } else {
      assert out + data[p..p] == out;
    }
  }

  lemma SliceAfterLiteral(data: seq<byte>, p: nat, j: nat, out: seq<byte>)
    requires 0 < j && p + j <= |data|
    ensures out + [data[p]] + data[p + 1..p + j] == out + data[p..p + j]
  {
    assert data[p..p + j] == [data[p]] + data[p + 1..p + j];
  }

  /** A clear control bit copies one input byte to the output. */
  lemma LiteralStep(data: seq<byte>, L: nat, p: nat, out: seq<byte>, c: nat)
    requires c + 1 < 8 && p < |data| && |out| < L
    ensures Run(data, L, State(p, out, 0, c)) == Run(data, L, State(p + 1, out + [data[p]], 0, c + 1))
  {
    var s := State(p, out, 0, c);
    assert StepOnce(data, L, s) == Next(State(p + 1, out + [data[p]], 0, c + 1));
    RunStep(data, L, s);
  }

  /** The input remaining after the first control byte of `LiteralStream(x)`. */
  lemma {:induction false} LiteralGroups(data: seq<byte>, L: nat, p: nat, out: seq<byte>, x: seq<byte>, r: seq<byte>)
    requires |x| > 0 && p <= |data| && data[p..] == LiteralStream(x)[1..]
    requires L == |out| + |x| && r == out + x
    ensures Run(data, L, State(p, out, 0, 0)) == Some(r)
    decreases |x|
  {
    if |x| < 8 {
      ShortGroup(data, L, p, out, x, r);
    } else {
      var tail := LiteralStream(x)[1..];
      assert tail[..8] == x[..8];
      assert data[p..p + 8] == tail[..8];
      var q := p + 7;
      var o := out + data[p..q];
      assert data[p..q] == data[p..p + 8][..7] == x[..8][..7] == x[..7];
      assert data[q] == data[p..p + 8][7] == x[7];
      LiteralRun(data, L, p, out, 0, 7, q, o, 7);
      FullGroupEnd(data, L, q, o, out, x, r);
      if |x| > 8 {
        var rest := x[8..];
        assert tail == x[..8] + LiteralStream(rest);
        assert data[q + 1..] == LiteralStream(rest);
        assert data[q + 2..] == LiteralStream(rest)[1..];
        assert out + x[..8] + rest == out + x;
        LiteralGroups(data, L, q + 2, out + x[..8], rest, r);
      }
    }
  }

  /** A last group of fewer than eight literals fills the output. */
  lemma ShortGroup(data: seq<byte>, L: nat, p: nat, out: seq<byte>, x: seq<byte>, r: seq<byte>)
    requires 0 < |x| < 8 && p <= |data| && data[p..] == LiteralStream(x)[1..]
    requires L == |out| + |x| && r == out + x
    ensures Run(data, L, State(p, out, 0, 0)) == Some(r)
  {
    assert LiteralStream(x)[1..] == x;
    assert data[p..p + |x|] == x;
    LiteralRun(data, L, p, out, 0, |x|, p + |x|, r, |x|);
  }

  /** The eighth literal of a full group, after which the output is full or
      the next control byte (zero) is read. */
  lemma FullGroupEnd(data: seq<byte>, L: nat, q: nat, o: seq<byte>, out: seq<byte>, x: seq<byte>, r: seq<byte>)
    requires |x| >= 8 && L == |out| + |x| && r == out + x
    requires q < |data| && o == out + x[..7] && data[q] == x[7]
    requires |x| > 8 ==> q + 1 < |data| && data[q + 1] == 0
    ensures |x| == 8 ==> Run(data, L, State(q, o, 0, 7)) == Some(r)
    ensures |x| > 8 ==> Run(data, L, State(q, o, 0, 7)) == Run(data, L, State(q + 2, out + x[..8], 0, 0))
  {
    assert o + [data[q]] == out + x[..8];
    LastLiteral(data, L, q, o);
    if |x| == 8 {
      assert x[..8] == x;
    }
  }

  /** The eighth clear bit of a control byte: a literal, then the next
      control byte is read if input remains. */
  lemma LastLiteral(data: seq<byte>, L: nat, q: nat, o: seq<byte>)
    requires q < |data| && |o| < L
    ensures q + 1 >= |data| ==> Run(data, L, State(q, o, 0, 7)) == Some(o + [data[q]])
    ensures q + 1 < |data| && data[q + 1] == 0 ==>
      Run(data, L, State(q, o, 0, 7)) == Run(data, L, State(q + 2, o + [data[q]], 0, 0))
  {
    RunStep(data, L, State(q, o, 0, 7));
  }

  /** Round trip: a literal-only stream decodes to its bytes, a control byte
      being read after every eight tokens. */
  lemma LiteralRoundTrip(x: seq<byte>)
    requires |x| > 0
    ensures LzssDecoded(LiteralStream(x), |x|) == Some(x)
  {
    var data := LiteralStream(x);
    assert data[0] == 0;
    assert [] + x == x;
    LiteralGroups(data, |x|, 1, [], x, x);
    DecodedOfRun(data, |x|, 0, x);
  }

  /** The loop's result from the first state is what `lzss_decompress` returns,
      once it is long enough. */
  lemma DecodedOfRun(data: seq<byte>, L: nat, c: int, o: seq<byte>)
    requires |data| > 0 && L > 0 && c == data[0] as int
    requires Run(data, L, State(1, [], c, 0)) == Some(o) && 9 * L <= 10 * |o|
    ensures LzssDecoded(data, L) == Some(o)
  {
  }

  /** A literal followed by a back-reference of distance 1 and length `n`
      repeats the literal: the copy overlaps the bytes it writes. */
  lemma OverlappingRun(a: byte, n: nat)
    requires 2 <= n <= 17
    ensures LzssDecoded([2, a] + U16Bytes((n - 2) * 0x1000 + 1), n + 1) == Some(Fill(n + 1, a))
  {
    var data := [2, a] + U16Bytes((n - 2) * 0x1000 + 1);
    var L := n + 1;
    var r := Fill(n + 1, a);
    OverlapFirst(data, a, n);
    OverlapSecond(data, a, n, r);
    DecodedOfRun(data, L, 2, r);
  }

  /** The literal `a`, taken on the clear low bit of control byte 2. */
  lemma OverlapFirst(data: seq<byte>, a: byte, n: nat)
    requires 2 <= n <= 17 && data == [2, a] + U16Bytes((n - 2) * 0x1000 + 1)
    ensures Run(data, n + 1, State(1, [], 2, 0)) == Run(data, n + 1, State(2, [a], 1, 1))
  {
    var s0 := State(1, [], 2, 0);
    assert StepOnce(data, n + 1, s0) == Next(State(2, [a], 1, 1));
    RunStep(data, n + 1, s0);
  }

  /** The back-reference of distance 1 on the set next bit fills the output with `a`. */
  lemma OverlapSecond(data: seq<byte>, a: byte, n: nat, r: seq<byte>)
    requires 2 <= n <= 17 && data == [2, a] + U16Bytes((n - 2) * 0x1000 + 1) && r == Fill(n + 1, a)
    ensures Run(data, n + 1, State(2, [a], 1, 1)) == Some(r)
  {
    U16Within([2, a], (n - 2) * 0x1000 + 1, []);
    assert data == [2, a] + U16Bytes((n - 2) * 0x1000 + 1) + [];
    assert U16At(data, 2) == (n - 2) * 0x1000 + 1;
    RepeatOfOne(a, n, r);
    var s1 := State(2, [a], 1, 1);
    assert StepOnce(data, n + 1, s1) == Next(State(4, r, 0, 2));
    RunStep(data, n + 1, s1);
  }

  /** Copying `n` bytes at distance 1 after a single byte repeats it. */
  lemma RepeatOfOne(a: byte, n: nat, r: seq<byte>)
    requires r == Fill(n + 1, a)
    ensures CopyBack([a], 1, n) == r
  {
    var c := CopyBack([a], 1, n);
    forall k | 0 <= k < n + 1 ensures c[k] == a {
      if k > 0 {
        CopyBackPeriodic([a], 1, n, k - 1);
      }
    }
  }

  /** A back-reference before any byte was produced is invalid, whatever its distance. */
  lemma LeadingReference(data: seq<byte>, L: nat)
    requires |data| >= 3 && data[0] % 2 == 1 && L > 0
    ensures LzssDecoded(data, L) == None
  {
    assert StepOnce(data, L, State(1, [], data[0], 0)) == Invalid;
  }

  // ---------------------------------------------------------------------------
  // The fallback chain
  // ---------------------------------------------------------------------------

  /** `zlib.decompress(data, wbits)` as supplied by the zlib library (RFC 1950/1951,
      not modelled); None stands for `zlib.error`. */
  type Inflater = (seq<byte>, int) -> Option<seq<byte>>

  /** `lzma.decompress(data)`; None stands for `LZMAError` or a missing module. */
  type LzmaDecoder = seq<byte> -> Option<seq<byte>>

  function Abs(x: int): nat { if x < 0 then -x else x }

  /** The size check applied after every attempt: no expected size, or a
      length within 20% of it (`abs(len - size) <= size * 0.2`). */
  predicate WithinTolerance(out: seq<byte>, size: nat) {
    size == 0 || 5 * Abs(|out| - size) <= size
  }

  /** One zlib attempt: bytes skipped at the front, then the `wbits` argument. */
  datatype Attempt = Attempt(skip: nat, wbits: int)

  /** The zlib attempts for type 1, in order: standard, raw deflate, window
      sizes 15, -15, 31 and 47, then (for more than 2 bytes) standard and raw
      deflate after skipping a 2-byte header. */
  function ZlibAttempts(n: nat): (r: seq<Attempt>)
    ensures forall a :: a in r ==> a.skip <= n
    ensures |r| == if n > 2 then 8 else 6
  {
    [Attempt(0, 15), Attempt(0, -15), Attempt(0, 15), Attempt(0, -15), Attempt(0, 31), Attempt(0, 47)]
    + (if n > 2 then [Attempt(2, 15), Attempt(2, -15)] else [])
  }

  function Try(inflate: Inflater, data: seq<byte>, a: Attempt): Option<seq<byte>>
    requires a.skip <= |data|
  {
    inflate(data[a.skip..], a.wbits)
  }

  /** Attempt `a` succeeds and passes the size check. */
  predicate Accepts(inflate: Inflater, data: seq<byte>, size: nat, a: Attempt)
    requires a.skip <= |data|
  {
    Try(inflate, data, a).Some? && WithinTolerance(Try(inflate, data, a).value, size)
  }

  /** The output of the first accepted attempt, if any. */
  function FirstAccepted(inflate: Inflater, data: seq<byte>, size: nat, attempts: seq<Attempt>): (r: Option<seq<byte>>)
    requires forall a :: a in attempts ==> a.skip <= |data|
    ensures r.None? <==> forall i :: 0 <= i < |attempts| ==> !Accepts(inflate, data, size, attempts[i])
    ensures r.Some? ==> exists i :: 0 <= i < |attempts| && Accepts(inflate, data, size, attempts[i])
                                    && r == Try(inflate, data, attempts[i])
                                    && forall j :: 0 <= j < i ==> !Accepts(inflate, data, size, attempts[j])
  {
    if attempts == [] then None
    else if Accepts(inflate, data, size, attempts[0]) then Try(inflate, data, attempts[0])
    else
      var r := FirstAccepted(inflate, data, size, attempts[1..]);
      assert forall i :: 1 <= i < |attempts| ==> attempts[i] == attempts[1..][i - 1];
      r
  }

  /** Raw bytes are taken as already uncompressed when `0.8 <= len/size <= 1.2`. */
  predicate PlausiblyRaw(data: seq<byte>, size: nat) {
    size > 0 && 4 * size <= 5 * |data| <= 6 * size
  }

  /** `decompress_with_grfeditor_fallback(data, size, ctype)`. */
  function FallbackDecompress(data: seq<byte>, size: nat, ctype: int, inflate: Inflater, lzma: LzmaDecoder)
    : (r: Option<seq<byte>>)
    ensures |data| == 0 ==> r == None
    ensures ctype == 0 ==> (r.Some? <==> |data| > 0 && |data| == size) && (r.Some? ==> r.value == data)
    ensures ctype != 0 && ctype != 1 && ctype != 4 ==> r == None
    ensures ctype == 4 && r.Some? ==> r == lzma(data) && WithinTolerance(r.value, size)
  {
    if |data| == 0 then None
    else if ctype == 0 then (if |data| == size then Some(data) else None)
    else if ctype == 1 then
      var z := FirstAccepted(inflate, data, size, ZlibAttempts(|data|));
      if z.Some? then z
      else
        var l := if size > 0 then LzssDecoded(data, size) else None;
        if l.Some? && |l.value| > 0 then l
        else if PlausiblyRaw(data, size) then Some(data)
        else None
    else if ctype == 4 then
      var x := lzma(data);
      if x.Some? && WithinTolerance(x.value, size) then x else None
    else None
  }

  /** Type 1: a zlib attempt that passes the size check wins, the first one in
      the fixed order; LZSS is consulted only when all of them fail and the
      expected size is positive; raw bytes are accepted last, and only when
      their length is within 0.8 to 1.2 times the expected size. */
  lemma ZlibChain(data: seq<byte>, size: nat, inflate: Inflater, lzma: LzmaDecoder)
    requires |data| > 0
    ensures var r := FallbackDecompress(data, size, 1, inflate, lzma);
            var atts := ZlibAttempts(|data|);
            && (forall i :: 0 <= i < |atts| && Accepts(inflate, data, size, atts[i])
                  ==> exists j :: 0 <= j <= i && r == Try(inflate, data, atts[j]) && Accepts(inflate, data, size, atts[j]))
            && ((forall i :: 0 <= i < |atts| ==> !Accepts(inflate, data, size, atts[i])) ==>
                  if size > 0 && LzssDecoded(data, size).Some? && |LzssDecoded(data, size).value| > 0
                  then r == LzssDecoded(data, size)
                  else r == (if PlausiblyRaw(data, size) then Some(data) else None))
  {
    FirstAcceptedWins(inflate, data, size, ZlibAttempts(|data|));
  }

  /** Every attempt that passes the size check is preceded or matched by
      the one `FirstAccepted` picks. */
  lemma FirstAcceptedWins(inflate: Inflater, data: seq<byte>, size: nat, atts: seq<Attempt>)
    requires forall a :: a in atts ==> a.skip <= |data|
    ensures var z := FirstAccepted(inflate, data, size, atts);
            forall i :: 0 <= i < |atts| && Accepts(inflate, data, size, atts[i])
              ==> exists j :: 0 <= j <= i && z == Try(inflate, data, atts[j]) && Accepts(inflate, data, size, atts[j])
  {
    var z := FirstAccepted(inflate, data, size, atts);
    if z.Some? {
      var k :| 0 <= k < |atts| && Accepts(inflate, data, size, atts[k]) && z == Try(inflate, data, atts[k])
               && forall j :: 0 <= j < k ==> !Accepts(inflate, data, size, atts[j]);
      forall i | 0 <= i < |atts| && Accepts(inflate, data, size, atts[i])
        ensures exists j :: 0 <= j <= i && z == Try(inflate, data, atts[j]) && Accepts(inflate, data, size, atts[j])
      {
        assert k <= i;
      }
    }
  }

  /** With no expected size only a zlib attempt can succeed. */
  lemma ZeroSizeOnlyZlib(data: seq<byte>, inflate: Inflater, lzma: LzmaDecoder)
    requires |data| > 0
    ensures var r := FallbackDecompress(data, 0, 1, inflate, lzma);
            r == FirstAccepted(inflate, data, 0, ZlibAttempts(|data|))
  {
  }
}
