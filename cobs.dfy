/**
 * Consistent Overhead Byte Stuffing (Cheshire and Baker, IEEE/ACM Transactions on
 * Networking, 1999), in the variant the bridge uses: a frame is a chain of runs, each
 * a code byte followed by code - 1 data bytes; a code below 0xFF stands for an
 * implicit zero after its data unless it is the last run, and 0xFF stands for 254
 * data bytes with no implicit zero. This encoder always writes a final code byte,
 * so a trailing run of exactly 254 non-zero bytes encodes as 0xFF, the bytes, 0x01.
 */
module Cobs {
  import opened Bytes
  import opened Wrappers

  /** The largest number of data bytes one run carries (code byte 0xFF). */
  const MaxRun := 254

  /** The code byte of a run holding `n` data bytes: one more than its length. */
  function CodeOf(n: nat): (c: byte)
    requires n <= MaxRun
    ensures c as int == n + 1
  {
    ByteOf(n + 1)
  }

  // ---------------------------------------------------------------------------
  // Encoding
  // ---------------------------------------------------------------------------

  /**
   * The encoding of `s` when the run currently open in the output already holds
   * the non-zero bytes `run` (its code byte is still to be written).
   */
  function EncodeRun(s: seq<byte>, run: seq<byte>): (r: seq<byte>)
    requires |run| < MaxRun
    decreases |s|
  {
    if s == [] then
      [CodeOf(|run|)] + run
    else if s[0] == 0 then
      [CodeOf(|run|)] + run + EncodeRun(s[1..], [])
    else if |run| + 1 == MaxRun then
      [0xFF] + run + [s[0]] + EncodeRun(s[1..], [])
    else
      EncodeRun(s[1..], run + [s[0]])
  }

  /**
   * The COBS encoding of a whole message, without the trailing delimiter: it holds no
   * 0x00, and decoding it gives the message back.
   */
  function Encode(s: seq<byte>): (r: seq<byte>)
    ensures ZeroFree(r)
    ensures DecodeRuns(r) == Some(s)
  {
    EncodeZeroFree(s, []);
    DecodeEncodeRun(s, []);
    assert [] + s == s;
    EncodeRun(s, [])
  }

  /** Number of non-zero bytes at the start of `s`. */
  function LeadingNonZero(s: seq<byte>): (n: nat)
    ensures n <= |s|
  {
    if s == [] || s[0] == 0 then 0 else 1 + LeadingNonZero(s[1..])
  }

  /** One input byte of the encoder: how it closes or extends the open run. */
  lemma EncodeRunStep(s: seq<byte>, run: seq<byte>)
    requires s != [] && |run| < MaxRun
    ensures s[0] == 0 ==>
      EncodeRun(s, run) == ([CodeOf(|run|)] + run) + EncodeRun(s[1..], [])
    ensures s[0] != 0 && |run| + 1 == MaxRun ==>
      EncodeRun(s, run) == ([0xFF] + (run + [s[0]])) + EncodeRun(s[1..], [])
    ensures s[0] != 0 && |run| + 1 < MaxRun ==>
      EncodeRun(s, run) == EncodeRun(s[1..], run + [s[0]])
  {
    if s[0] != 0 && |run| + 1 == MaxRun {
      assert [0xFF] + run + [s[0]] == [0xFF] + (run + [s[0]]);
    }
  }

  /** Back-patching the placeholder in front of the open run writes its code byte. */
  lemma PatchCode(done: seq<byte>, run: seq<byte>, code: byte)
    ensures (done + [0] + run)[|done| := code] == done + ([code] + run)
  {
    var patched := (done + [0] + run)[|done| := code];
    assert forall i :: 0 <= i < |patched| ==> patched[i] == (done + ([code] + run))[i];
  }

  /**
   * What the firmware's encoder loop keeps: after `idx` input bytes, `output` holds the
   * closed runs `done`, a placeholder for the open run's code byte at `codeIdx`, and
   * the open run's bytes `run`; `code` is that run's code so far; and finishing the
   * open run over the rest of the input gives the encoding of the whole input.
   */
  ghost predicate EncoderInv(input: seq<byte>, idx: nat, output: seq<byte>, codeIdx: nat, code: byte,
                             done: seq<byte>, run: seq<byte>)
  {
    && idx <= |input|
    && output == done + [0] + run
    && codeIdx == |done|
    && |run| < MaxRun && code == CodeOf(|run|)
    && done + EncodeRun(input[idx..], run) == Encode(input)
  }

  /** A zero input byte closes the open run: its code is patched in and a new run opens. */
  lemma EncoderOnZero(input: seq<byte>, idx: nat, output: seq<byte>, codeIdx: nat, code: byte,
                      done: seq<byte>, run: seq<byte>)
    requires EncoderInv(input, idx, output, codeIdx, code, done, run)
    requires idx < |input| && input[idx] == 0
    ensures EncoderInv(input, idx + 1, output[codeIdx := code] + [0], |output|, 1,
                       done + ([code] + run), [])
  {
    assert input[idx..][1..] == input[idx + 1..];
    EncodeRunStep(input[idx..], run);
    Regroup(done, [code] + run, EncodeRun(input[idx + 1..], []));
    PatchCode(done, run, code);
  }

  /**
   * A non-zero byte that makes the open run 254 bytes long closes it: `code`, now
   * 0xFF, is patched in and a new run opens.
   */
  lemma EncoderOnFullRun(input: seq<byte>, idx: nat, output: seq<byte>, codeIdx: nat, code: byte,
                         done: seq<byte>, run: seq<byte>)
    requires EncoderInv(input, idx, output, codeIdx, code, done, run)
    requires idx < |input| && input[idx] != 0 && code + 1 == 0xFF
    ensures EncoderInv(input, idx + 1, (output + [input[idx]])[codeIdx := code + 1] + [0], |output| + 1, 1,
                       done + ([code + 1] + (run + [input[idx]])), [])
  {
    var x := input[idx];
    assert CodeOf(|run| + 1) == 0xFF;
    assert input[idx..][1..] == input[idx + 1..];
    EncodeRunStep(input[idx..], run);
    Regroup(done + [0], run, [x]);
    Regroup(done, [0xFF] + (run + [x]), EncodeRun(input[idx + 1..], []));
    PatchCode(done, run + [x], 0xFF);
  }

  /** Any other non-zero byte is copied into the open run. */
  lemma EncoderOnData(input: seq<byte>, idx: nat, output: seq<byte>, codeIdx: nat, code: byte,
                      done: seq<byte>, run: seq<byte>)
    requires EncoderInv(input, idx, output, codeIdx, code, done, run)
    requires idx < |input| && input[idx] != 0 && code + 1 != 0xFF
    ensures EncoderInv(input, idx + 1, output + [input[idx]], codeIdx, code + 1, done, run + [input[idx]])
  {
    assert CodeOf(|run| + 1) != 0xFF;
    assert input[idx..][1..] == input[idx + 1..];
    EncodeRunStep(input[idx..], run);
    Regroup(done + [0], run, [input[idx]]);
  }

  /** At the end of the input, patching the last code byte completes the encoding. */
  lemma EncoderFinish(input: seq<byte>, output: seq<byte>, codeIdx: nat, code: byte,
                      done: seq<byte>, run: seq<byte>)
    requires EncoderInv(input, |input|, output, codeIdx, code, done, run)
    ensures output[codeIdx := code] == Encode(input)
  {
    assert input[|input|..] == [];
    PatchCode(done, run, code);
  }

  /**
   * The encoder, as the firmware writes it: a placeholder byte is reserved for each
   * run's code and back-patched once the run ends, either at a zero input byte or
   * after 254 copied non-zero bytes, and once more after the last input byte.
   */
  method EncodeBytes(input: seq<byte>) returns (output: seq<byte>)
    ensures output == Encode(input)
    ensures ZeroFree(output)
  {
    output := [0];  // placeholder for the first code byte
    var idx := 0;
    var codeIdx: nat := 0;
    var code: byte := 1;
    ghost var done, run := [], [];  // the closed runs, and the bytes of the open one
    assert input[0..] == input;
    while idx < |input|
      invariant EncoderInv(input, idx, output, codeIdx, code, done, run)
    {
      if input[idx] == 0 {
        EncoderOnZero(input, idx, output, codeIdx, code, done, run);
        done, run := done + ([code] + run), [];
        output := output[codeIdx := code];
        codeIdx := |output|;
        output := output + [0];  // placeholder for the next code byte
        code := 1;
      } else {
        ghost var before, old_code := output, code;
        output := output + [input[idx]];
        code := code + 1;
        if code == 0xFF {
          EncoderOnFullRun(input, idx, before, codeIdx, old_code, done, run);
          done, run := done + ([code] + (run + [input[idx]])), [];
          output := output[codeIdx := code];
          codeIdx := |output|;
          output := output + [0];  // placeholder for the next code byte
          code := 1;
        } else {
          EncoderOnData(input, idx, before, codeIdx, old_code, done, run);
          run := run + [input[idx]];
        }
      }
      idx := idx + 1;
    }
    EncoderFinish(input, output, codeIdx, code, done, run);
    output := output[codeIdx := code];
    EncodeZeroFree(input, []);
  }

  /** The encoder never emits 0x00: code bytes are 1..255 and data bytes are the non-zero inputs. */
  lemma {:induction false} EncodeZeroFree(s: seq<byte>, run: seq<byte>)
    requires |run| < MaxRun && ZeroFree(run)
    ensures ZeroFree(EncodeRun(s, run))
    decreases |s|
  {
    if s != [] {
      if s[0] == 0 || |run| + 1 == MaxRun {
        EncodeZeroFree(s[1..], []);
      } else {
        EncodeZeroFree(s[1..], run + [s[0]]);
      }
    }
  }

  // ---------------------------------------------------------------------------
  // Decoding
  // ---------------------------------------------------------------------------

  /** `p` in front of a successful result; a failure stays a failure. */
  function Prepend(p: seq<byte>, r: Option<seq<byte>>): Option<seq<byte>>
  {
    match r
    case None => None
    case Some(rest) => Some(p + rest)
  }

  /**
   * Decoding of a run chain: None when some code byte is 0 or some run's declared
   * length reaches past the end of the input.
   */
  function DecodeRuns(s: seq<byte>): (r: Option<seq<byte>>)
    ensures r.Some? ==> |r.value| <= |s|
    decreases |s|
  {
    if s == [] then Some([])
    else
      var code := s[0] as int;
      if code == 0 || code - 1 >= |s| then None
      else
        var rest := s[code..];
        var zero: seq<byte> := if code != 0xFF && rest != [] then [0] else [];
        Prepend(s[1..code] + zero, DecodeRuns(rest))
  }

  lemma PrependPrepend(p: seq<byte>, q: seq<byte>, r: Option<seq<byte>>)
    ensures Prepend(p, Prepend(q, r)) == Prepend(p + q, r)
  {
    if r.Some? {
      assert p + (q + r.value) == (p + q) + r.value;
    }
  }

  lemma PrependEmpty(r: Option<seq<byte>>)
    ensures Prepend([], r) == r
  {
    if r.Some? {
      assert [] + r.value == r.value;
    }
  }

  /** The first run of a well-formed chain: its data bytes, then the implicit zero if any. */
  lemma DecodeRunsFirst(s: seq<byte>, c: int, data: seq<byte>, zero: seq<byte>, rest: seq<byte>)
    requires s != [] && c == s[0] as int && 0 < c <= |s|
    requires data == s[1..c] && rest == s[c..]
    requires zero == if c != 0xFF && rest != [] then [0] else []
    ensures DecodeRuns(s) == Prepend(data + zero, DecodeRuns(rest))
  {
  }

  /** The decoder's result: the decoded bytes, or the empty sequence on malformed input. */
  function Decode(s: seq<byte>): (r: seq<byte>)
    ensures |r| <= |s|
    ensures s != [] && (s[0] == 0 || s[0] as int > |s|) ==> r == []
  {
    match DecodeRuns(s)
    case None => []
    case Some(d) => d
  }

  /** A code byte of 0 or a run reaching past the end makes the whole decoding fail. */
  lemma DecoderReject(input: seq<byte>, idx: nat, output: seq<byte>)
    requires idx < |input| && DecodeRuns(input) == Prepend(output, DecodeRuns(input[idx..]))
    requires input[idx] == 0 || idx + input[idx] as int - 1 >= |input|
    ensures Decode(input) == []
  {
    assert input[idx..][0] == input[idx];
  }

  /** A run read from the middle of the input, seen from its code byte. */
  lemma RunSlices(input: seq<byte>, start: nat, c: nat)
    requires start < |input| && 0 < c && start + c <= |input|
    ensures input[start..][0] == input[start]
    ensures input[start..][1..c] == input[start + 1..start + c]
    ensures input[start..][c..] == input[start + c..]
  {
  }

  /** A well-formed run in the middle of the input decodes to its data bytes and implicit zero. */
  lemma DecoderRun(input: seq<byte>, start: nat, c: int, idx: nat, zero: seq<byte>)
    requires start < |input| && c == input[start] as int
    requires 0 < c && idx == start + c <= |input|
    requires zero == if c != 0xFF && idx < |input| then [0] else []
    ensures DecodeRuns(input[start..]) == Prepend(input[start + 1..idx] + zero, DecodeRuns(input[idx..]))
  {
    RunSlices(input, start, c);
    DecodeRunsFirst(input[start..], c, input[start + 1..idx], zero, input[idx..]);
  }

  /** The decoder's outer loop invariant survives one well-formed run. */
  lemma DecoderStep(input: seq<byte>, start: nat, c: int, idx: nat, before: seq<byte>, zero: seq<byte>,
                    output: seq<byte>)
    requires start < |input| && DecodeRuns(input) == Prepend(before, DecodeRuns(input[start..]))
    requires c == input[start] as int && 0 < c && idx == start + c <= |input|
    requires zero == if c != 0xFF && idx < |input| then [0] else []
    requires output == before + input[start + 1..idx] + zero
    ensures DecodeRuns(input) == Prepend(output, DecodeRuns(input[idx..]))
  {
    Regroup(before, input[start + 1..idx], zero);
    DecoderRun(input, start, c, idx, zero);
    PrependPrepend(before, input[start + 1..idx] + zero, DecodeRuns(input[idx..]));
  }

  /**
   * The decoder's inner loop: append the `code - 1` data bytes of the run whose code
   * byte sits at `start`, and step past them. (The firmware also re-tests the input
   * bound before every copied byte; the run-length test before the copy already rules
   * that case out, which the loop invariant shows.)
   */
  method CopyRun(input: seq<byte>, start: nat, code: int, output: seq<byte>) returns (out: seq<byte>, idx: nat)
    requires start < |input| && 0 < code && start + code <= |input|
    ensures idx == start + code
    ensures out == output + input[start + 1..idx]
  {
    out := output;
    idx := start + 1;
    var i := 1;  // the firmware's uint8_t counter; it stays below the code byte
    while i < code
      invariant 1 <= i <= code
      invariant idx == start + i
      invariant out == output + input[start + 1..idx]
    {
      out := out + [input[idx]];
      idx := idx + 1;
      i := i + 1;
    }
  }

  /**
   * The decoder, as the firmware writes it: walk the code bytes, copy each run's
   * data bytes, and insert a zero after a run whose code is not 0xFF when more input
   * follows.
   */
  method DecodeBytes(input: seq<byte>) returns (output: seq<byte>)
    ensures output == Decode(input)
    ensures |output| <= |input|
    ensures input != [] && (input[0] == 0 || input[0] as int > |input|) ==> output == []
  {
    output := [];
    var idx := 0;
    assert input[idx..] == input;
    PrependEmpty(DecodeRuns(input));
    while idx < |input|
      invariant 0 <= idx <= |input|
      invariant DecodeRuns(input) == Prepend(output, DecodeRuns(input[idx..]))
      decreases |input| - idx
    {
      var code := input[idx] as int;
      if code == 0 || idx + code - 1 >= |input| {
        DecoderReject(input, idx, output);
        return [];  // invalid COBS stream
      }
      ghost var start, before := idx, output;
      output, idx := CopyRun(input, idx, code, output);
      ghost var zero: seq<byte> := [];
      if code != 0xFF && idx < |input| {
        output := output + [0];
        zero := [0];
      } else {
        assert output == output + zero;
      }
      DecoderStep(input, start, code, idx, before, zero, output);
    }
    assert input[idx..] == [];
    PrependEmpty(Some(output));
  }

  // ---------------------------------------------------------------------------
  // Properties
  // ---------------------------------------------------------------------------

  /** A block written as a code byte, its data bytes and whatever follows decodes block first. */
  lemma DecodeBlock(code: byte, data: seq<byte>, t: seq<byte>)
    requires code as int == |data| + 1
    ensures DecodeRuns(([code] + data) + t) ==
      Prepend(data + (if |data| + 1 != 0xFF && t != [] then [0] else []), DecodeRuns(t))
  {
    var e := ([code] + data) + t;
    assert e[0] == code;
    assert e[1..code as int] == data;
    assert e[code as int..] == t;
    DecodeRunsFirst(e, code as int, data, if |data| + 1 != 0xFF && t != [] then [0] else [], t);
  }

  lemma ConsTail(run: seq<byte>, s: seq<byte>)
    requires s != []
    ensures (run + [s[0]]) + s[1..] == run + s
  {
    assert s == [s[0]] + s[1..];
  }

  /** A zero byte closes the open run with a short code; the decoder restores the zero. */
  lemma DecodeEncodeZero(s: seq<byte>, run: seq<byte>)
    requires s != [] && s[0] == 0 && |run| < MaxRun
    requires DecodeRuns(EncodeRun(s[1..], [])) == Some(s[1..])
    ensures DecodeRuns(EncodeRun(s, run)) == Some(run + s)
  {
    var code := CodeOf(|run|);
    var t := EncodeRun(s[1..], []);
    EncodeRunStep(s, run);
    assert EncodeRun(s, run) == ([code] + run) + t;
    EncodeRunLength(s[1..], []);
    assert t != [];
    DecodeBlock(code, run, t);
    ConsTail(run, s);
  }

  /** A 254th data byte closes the open run with code 0xFF and no implicit zero. */
  lemma DecodeEncodeFull(s: seq<byte>, run: seq<byte>)
    requires s != [] && s[0] != 0 && |run| + 1 == MaxRun
    requires DecodeRuns(EncodeRun(s[1..], [])) == Some(s[1..])
    ensures DecodeRuns(EncodeRun(s, run)) == Some(run + s)
  {
    var t := EncodeRun(s[1..], []);
    EncodeRunStep(s, run);
    DecodeBlock(0xFF, run + [s[0]], t);
    assert run + [s[0]] + [] == run + [s[0]];
    ConsTail(run, s);
  }

  /** Decoding the encoding of `s`, with `run` already open, gives back `run` and `s`. */
  lemma {:induction false} DecodeEncodeRun(s: seq<byte>, run: seq<byte>)
    requires |run| < MaxRun
    ensures DecodeRuns(EncodeRun(s, run)) == Some(run + s)
    decreases |s|
  {
    if s == [] {
      var code := CodeOf(|run|);
      assert EncodeRun(s, run) == ([code] + run) + [];
      DecodeBlock(code, run, []);
      assert run + [] + [] == run + s;
    } else if s[0] == 0 {
      DecodeEncodeRun(s[1..], []);
      assert [] + s[1..] == s[1..];
      DecodeEncodeZero(s, run);
    } else if |run| + 1 == MaxRun {
      DecodeEncodeRun(s[1..], []);
      assert [] + s[1..] == s[1..];
      DecodeEncodeFull(s, run);
    } else {
      EncodeRunStep(s, run);
      DecodeEncodeRun(s[1..], run + [s[0]]);
      ConsTail(run, s);
    }
  }

  /**
   * Bounds on the encoding of `s` with `run` already open: at least one byte more than
   * the data, and at most one more byte per 254 data bytes on top of that.
   */
  lemma {:induction false} EncodeRunLength(s: seq<byte>, run: seq<byte>)
    requires |run| < MaxRun
    ensures |run| + |s| + 1 <= |EncodeRun(s, run)| <= |run| + |s| + 1 + (|run| + |s|) / MaxRun
    decreases |s|
  {
    if s != [] {
      EncodeRunStep(s, run);
      if s[0] == 0 {
        EncodeRunLength(s[1..], []);
      } else if |run| + 1 == MaxRun {
        EncodeRunLength(s[1..], []);
      } else {
        EncodeRunLength(s[1..], run + [s[0]]);
      }
    }
  }

  /** The encoding overhead is at least one byte and at most one byte per 254 input bytes, plus one. */
  lemma EncodeLength(s: seq<byte>)
    ensures |s| + 1 <= |Encode(s)| <= |s| + 1 + |s| / MaxRun
  {
    EncodeRunLength(s, []);
  }

  /**
   * Number of full runs (code 0xFF) in the encoding of `s`: each maximal stretch of
   * non-zero bytes contributes one for every 254 bytes it holds.
   */
  function Splits(s: seq<byte>): nat
    decreases |s|
  {
    if s == [] then 0
    else
      var n := LeadingNonZero(s);
      n / MaxRun + (if n < |s| then Splits(s[n + 1..]) else 0)
  }

  /** `LeadingNonZero` after dropping one leading non-zero byte. */
  lemma LeadingNonZeroTail(s: seq<byte>)
    requires s != [] && s[0] != 0
    ensures LeadingNonZero(s[1..]) == LeadingNonZero(s) - 1
    ensures LeadingNonZero(s) < |s| ==>
      s[1..][LeadingNonZero(s[1..]) + 1..] == s[LeadingNonZero(s) + 1..]
  {
  }

  /** The full runs after the leading non-zero bytes of `s`, if a zero ends them. */
  function SplitsAfter(s: seq<byte>): nat
  {
    var n := LeadingNonZero(s);
    if n < |s| then Splits(s[n + 1..]) else 0
  }

  /** `Splits` of any sequence, empty or not, by its leading non-zero bytes. */
  lemma SplitsUnfold(s: seq<byte>)
    ensures Splits(s) == LeadingNonZero(s) / MaxRun + SplitsAfter(s)
  {
  }

  /** What follows the leading non-zero bytes is the same after dropping one of them. */
  lemma SplitsAfterTail(s: seq<byte>)
    requires s != [] && s[0] != 0
    ensures SplitsAfter(s[1..]) == SplitsAfter(s)
  {
    LeadingNonZeroTail(s);
  }

  /**
   * Exact length of the encoding of `s` with `run` open: the data, one code byte for
   * the last run, one more for every full run that the open run and the leading
   * non-zero bytes fill, and the full runs of whatever follows the first zero.
   */
  lemma {:induction false} EncodeRunLengthExact(s: seq<byte>, run: seq<byte>)
    requires |run| < MaxRun
    ensures |EncodeRun(s, run)| ==
      |run| + |s| + 1 + (|run| + LeadingNonZero(s)) / MaxRun + SplitsAfter(s)
    decreases |s|
  {
    if s != [] {
      EncodeRunStepLength(s, run);
      if s[0] == 0 {
        EncodeRunLengthExact(s[1..], []);
        SplitsUnfold(s[1..]);
      } else if |run| + 1 == MaxRun {
        EncodeRunLengthExact(s[1..], []);
        FullRunLength(s, run);
      } else {
        EncodeRunLengthExact(s[1..], run + [s[0]]);
        LeadingNonZeroTail(s);
        SplitsAfterTail(s);
      }
    }
  }

  /** `EncodeRunStep` counted in bytes. */
  lemma EncodeRunStepLength(s: seq<byte>, run: seq<byte>)
    requires s != [] && |run| < MaxRun
    ensures s[0] == 0 ==> |EncodeRun(s, run)| == |run| + 1 + |EncodeRun(s[1..], [])|
    ensures s[0] != 0 && |run| + 1 == MaxRun ==>
      |EncodeRun(s, run)| == |run| + 2 + |EncodeRun(s[1..], [])|
    ensures s[0] != 0 && |run| + 1 < MaxRun ==>
      |EncodeRun(s, run)| == |EncodeRun(s[1..], run + [s[0]])|
  {
    EncodeRunStep(s, run);
  }

  /** The step of `EncodeRunLengthExact` that closes a full run. */
  lemma FullRunLength(s: seq<byte>, run: seq<byte>)
    requires s != [] && s[0] != 0 && |run| + 1 == MaxRun
    requires |EncodeRun(s, run)| == |run| + 2 + |EncodeRun(s[1..], [])|
    requires |EncodeRun(s[1..], [])| ==
      |s| + LeadingNonZero(s[1..]) / MaxRun + SplitsAfter(s[1..])
    ensures |EncodeRun(s, run)| ==
      |run| + |s| + 1 + (|run| + LeadingNonZero(s)) / MaxRun + SplitsAfter(s)
  {
    var n := LeadingNonZero(s);
    LeadingNonZeroTail(s);
    SplitsAfterTail(s);
    assert (|run| + n) / MaxRun == 1 + (n - 1) / MaxRun;
  }

  /** The encoding is exactly one byte longer than the input, plus one byte per full run. */
  lemma EncodeLengthExact(s: seq<byte>)
    ensures |Encode(s)| == |s| + 1 + Splits(s)
  {
    EncodeRunLengthExact(s, []);
  }

  /** Round trip: every byte sequence, including empty, all-zero and long ones, comes back. */
  lemma RoundTrip(s: seq<byte>)
    ensures DecodeRuns(Encode(s)) == Some(s)
    ensures Decode(Encode(s)) == s
  {
    DecodeEncodeRun(s, []);
    assert [] + s == s;
  }

  /** Moving the first byte of `s` into the open run leaves the same prefix and suffix. */
  lemma ShiftIntoRun(run: seq<byte>, s: seq<byte>, k: nat)
    requires 1 <= k <= |s|
    ensures (run + [s[0]]) + s[1..][..k - 1] == run + s[..k]
    ensures s[1..][k - 1..] == s[k..]
  {
    assert s[..k] == [s[0]] + s[1..][..k - 1];
  }

  /**
   * The first run of the encoding of `s`, with `run` already open, when at least
   * enough non-zero bytes follow to fill it: code 0xFF, the 254 data bytes, and a
   * fresh encoding of the rest.
   */
  lemma {:induction false} EncodeRunFull(s: seq<byte>, run: seq<byte>)
    requires |run| < MaxRun && LeadingNonZero(s) >= MaxRun - |run|
    ensures EncodeRun(s, run) == ([0xFF] + (run + s[..MaxRun - |run|])) + Encode(s[MaxRun - |run|..])
    decreases |s|
  {
    EncodeRunStep(s, run);
    if |run| + 1 == MaxRun {
      ShiftIntoRun(run, s, 1);
      assert s[1..][..0] == [];
      assert (run + [s[0]]) + [] == run + [s[0]];
    } else {
      EncodeRunFull(s[1..], run + [s[0]]);
      ShiftIntoRun(run, s, MaxRun - |run|);
    }
  }

  /**
   * The first run when a zero byte comes before the run fills: its code counts the
   * bytes before the zero plus one, and the encoding starts afresh after the zero.
   */
  lemma {:induction false} EncodeRunZero(s: seq<byte>, run: seq<byte>)
    requires |run| < MaxRun && LeadingNonZero(s) < MaxRun - |run| && LeadingNonZero(s) < |s|
    ensures var n := LeadingNonZero(s);
      EncodeRun(s, run) == ([CodeOf(|run| + n)] + (run + s[..n])) + Encode(s[n + 1..])
    decreases |s|
  {
    if s[0] == 0 {
      EncodeRunStep(s, run);
      assert run + s[..0] == run;
    } else {
      var n, n' := LeadingNonZero(s), LeadingNonZero(s[1..]);
      EncodeRunZero(s[1..], run + [s[0]]);
      assert s[1..][n' + 1..] == s[n + 1..];
      EncodeRunZeroCons(s, run, Encode(s[n + 1..]));
    }
  }

  /** The inductive step of `EncodeRunZero`: a leading non-zero byte moves into the open run. */
  lemma EncodeRunZeroCons(s: seq<byte>, run: seq<byte>, tail: seq<byte>)
    requires |run| < MaxRun && LeadingNonZero(s) < MaxRun - |run| && LeadingNonZero(s) < |s| && s[0] != 0
    requires var n', run' := LeadingNonZero(s[1..]), run + [s[0]];
      EncodeRun(s[1..], run') == ([CodeOf(|run'| + n')] + (run' + s[1..][..n'])) + tail
    ensures var n := LeadingNonZero(s);
      EncodeRun(s, run) == ([CodeOf(|run| + n)] + (run + s[..n])) + tail
  {
    var n, n' := LeadingNonZero(s), LeadingNonZero(s[1..]);
    var run' := run + [s[0]];
    assert n == n' + 1 && |run'| + n' == |run| + n;
    EncodeRunStep(s, run);
    var code := CodeOf(|run| + n);
    assert CodeOf(|run'| + n') == code;
    ZeroRunShift(s, run, n, code, tail);
  }

  /** The open run with the first byte of `s` moved into it, under a code byte and before a tail. */
  lemma ZeroRunShift(s: seq<byte>, run: seq<byte>, n: nat, code: byte, tail: seq<byte>)
    requires 1 <= n <= |s|
    ensures ([code] + ((run + [s[0]]) + s[1..][..n - 1])) + tail == ([code] + (run + s[..n])) + tail
  {
    ShiftIntoRun(run, s, n);
  }

  /** The first run when the input ends before a zero or a full run: it is also the last. */
  lemma {:induction false} EncodeRunEnd(s: seq<byte>, run: seq<byte>)
    requires |run| < MaxRun && LeadingNonZero(s) < MaxRun - |run| && LeadingNonZero(s) == |s|
    ensures EncodeRun(s, run) == [CodeOf(|run| + |s|)] + (run + s)
    decreases |s|
  {
    if s == [] {
      assert run + s == run;
    } else {
      EncodeRunStep(s, run);
      EncodeRunEnd(s[1..], run + [s[0]]);
      ConsTail(run, s);
    }
  }

  /**
   * A code byte 0xFF opens the encoding exactly when the input starts with 254
   * non-zero bytes; those bytes follow it and a new run starts after them. Otherwise
   * the first code counts the leading non-zero bytes plus one.
   */
  lemma FirstCode(s: seq<byte>)
    ensures Encode(s) != []
    ensures Encode(s)[0] == 0xFF <==> LeadingNonZero(s) >= MaxRun
    ensures LeadingNonZero(s) >= MaxRun ==> Encode(s) == [0xFF] + s[..MaxRun] + Encode(s[MaxRun..])
    ensures LeadingNonZero(s) < MaxRun ==> Encode(s)[0] as int == LeadingNonZero(s) + 1
  {
    EncodeLength(s);
    var n := LeadingNonZero(s);
    if n >= MaxRun {
      EncodeRunFull(s, []);
      assert [] + s[..MaxRun] == s[..MaxRun];
    } else {
      if n < |s| {
        EncodeRunZero(s, []);
      } else {
        EncodeRunEnd(s, []);
      }
    }
  }

  /** A zero-free sequence is all leading non-zero bytes. */
  lemma {:induction false} LeadingNonZeroOfZeroFree(s: seq<byte>)
    requires ZeroFree(s)
    ensures LeadingNonZero(s) == |s|
  {
    if s != [] {
      LeadingNonZeroOfZeroFree(s[1..]);
    }
  }

  /** The empty message encodes as the single code byte 0x01. */
  lemma EmptyEncoding()
    ensures Encode([]) == [0x01]
  {
  }

  /** A final run of exactly 254 non-zero bytes still gets a closing code byte 0x01. */
  lemma FinalCodeByte(s: seq<byte>)
    requires |s| == MaxRun && ZeroFree(s)
    ensures Encode(s) == [0xFF] + s + [0x01]
  {
    LeadingNonZeroOfZeroFree(s);
    FirstCode(s);
    assert s[..MaxRun] == s && s[MaxRun..] == [];
  }
}
