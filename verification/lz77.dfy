/**
 * The match loop of `encode` in src/lib.rs: the input is cut into
 * literal and back-reference tokens over a sliding window of the last
 * 1024 bytes, the LZ77 step of section 2 of RFC 1951.
 *
 * The loop reads each byte, grows a candidate string one byte at a time
 * for as long as `match_cheak` still finds it in the window, and emits the
 * candidate as a back-reference when it reached three bytes and as
 * literals otherwise. Every consumed byte is fed to the CRC as it is read,
 * so the CRC state is threaded through the loop. The independent partner
 * is `Expand`, the decompressor's view of a token list.
 */
module Lz77 {
  import opened MatchFinder
  import opened Wrappers
  import Crc32

  const MaxMatchLen: nat := 258
  const MinMatchLen: nat := 3
  const MaxWindowSize: nat := 1024

  /** A literal byte or a back-reference of `length` bytes `distance` bytes back. */
  datatype Token = Literal(value: bv8) | Copy(length: nat, distance: nat)

  /** The lengths and distances a fixed-Huffman block can carry within the 1024-byte window. */
  predicate TokenFits(t: Token)
  {
    t.Copy? ==> MinMatchLen <= t.length <= MaxMatchLen && 1 <= t.distance <= MaxWindowSize
  }

  predicate AllFit(ts: seq<Token>)
  {
    forall i :: 0 <= i < |ts| ==> TokenFits(ts[i])
  }

  // ---------------------------------------------------------------------
  // The decompressor's view.
  // ---------------------------------------------------------------------

  /** Append `length` bytes, each copied from `distance` bytes back; the copy may overlap itself. */
  function CopyBack(out: seq<bv8>, length: nat, distance: nat): (r: seq<bv8>)
    requires 1 <= distance <= |out|
    ensures |r| == |out| + length
    decreases length
  {
    if length == 0 then out else CopyBack(out + [out[|out| - distance]], length - 1, distance)
  }

  /** Replay `tokens` after `out`; `None` when a reference reaches before the start. */
  function Expand(out: seq<bv8>, tokens: seq<Token>): Option<seq<bv8>>
    decreases |tokens|
  {
    if |tokens| == 0 then Some(out)
    else match tokens[0]
      case Literal(b) => Expand(out + [b], tokens[1..])
      case Copy(length, distance) =>
        if 1 <= distance <= |out| then Expand(CopyBack(out, length, distance), tokens[1..]) else None
  }


  // ---------------------------------------------------------------------
  // The encoder.
  // ---------------------------------------------------------------------

  /**
   * The last `length` bytes of `window + s[..|s| - 1]` start with `s`
   * `d` bytes before the end of `window`: the candidate `s` may be
   * copied from distance `d` once everything before it is in the output.
   */
  predicate MatchAt(window: seq<bv8>, s: seq<bv8>, d: int)
  {
    1 <= |s| && 1 <= d <= |window| && OccursAt(window + s[..|s| - 1], s, |window| - d)
  }

  /** Where the growth of one candidate stopped. */
  datatype Grown = Grown(res: seq<bv8>, rest: seq<bv8>, offset: int, crc: Crc32.Crc32)

  /**
   * The inner `while` loop: extend the candidate `res` by the next input
   * byte while it is shorter than 258 bytes and the extension still
   * occurs in the window, which by then holds `window + res`. The offset
   * is that of the last successful search. Nothing is lost or reordered:
   * the grown candidate and the input left over make up what there was.
   */
  function Grow(window: seq<bv8>, res: seq<bv8>, rest: seq<bv8>, offset: int, crc: Crc32.Crc32): (g: Grown)
    requires 1 <= |res| <= MaxMatchLen
    ensures g.res + g.rest == res + rest
    ensures |res| <= |g.res| <= MaxMatchLen
    ensures if |g.res| == |res| then g.offset == offset else g.offset >= 1
    decreases |rest|
  {
    if |res| == MaxMatchLen || |rest| == 0 then Grown(res, rest, offset, crc)
    else
      var d := MatchCheak(window + res, res + [rest[0]]);
      if d == -1 then Grown(res, rest, offset, crc)
      else
        assert res + rest == (res + [rest[0]]) + rest[1..];
        Grow(window, res + [rest[0]], rest[1..], d, Crc32.PushBuf(crc, rest[0]))
  }

  /**
   * A candidate that grew is a match at the offset found last, and the
   * growth is greedy: it stops at 258 bytes, at the end of the input, or
   * because one more byte occurs nowhere in the window.
   */
  lemma {:induction false} GrowMatches(window: seq<bv8>, res: seq<bv8>, rest: seq<bv8>, offset: int, crc: Crc32.Crc32)
    requires 1 <= |res| <= MaxMatchLen
    ensures var g := Grow(window, res, rest, offset, crc);
      && (|g.res| > |res| ==> MatchAt(window, g.res, g.offset))
      && (|g.res| < MaxMatchLen && |g.rest| > 0 ==> MatchCheak(window + g.res, g.res + [g.rest[0]]) == -1)
    decreases |rest|
  {
    if |res| < MaxMatchLen && |rest| > 0 {
      var d := MatchCheak(window + res, res + [rest[0]]);
      if d != -1 {
        GrowStep(window, res, rest[0], d);
        GrowMatches(window, res + [rest[0]], rest[1..], d, Crc32.PushBuf(crc, rest[0]));
      }
    }
  }

  /** A successful search for the extended candidate is a match for it. */
  lemma GrowStep(window: seq<bv8>, res: seq<bv8>, v: bv8, d: int)
    requires d == MatchCheak(window + res, res + [v]) && d != -1
    ensures MatchAt(window, res + [v], d)
  {
    assert (res + [v])[..|res|] == res;
  }

  /** `s` as literals. */
  function Literals(s: seq<bv8>): (ts: seq<Token>)
    ensures |ts| == |s| && forall i :: 0 <= i < |s| ==> ts[i] == Literal(s[i])
  {
    seq(|s|, i requires 0 <= i < |s| => Literal(s[i]))
  }

  /** A candidate shorter than three bytes goes out as literals, a longer one as one reference. */
  function Emit(res: seq<bv8>, offset: int): seq<Token>
    requires |res| >= MinMatchLen ==> offset >= 1
  {
    if |res| < MinMatchLen then Literals(res) else [Copy(|res|, offset as nat)]
  }

  /** The window after a step: its last 1024 bytes. */
  function Trim(w: seq<bv8>): (r: seq<bv8>)
    ensures |r| == if |w| > MaxWindowSize then MaxWindowSize else |w|
    ensures r == w[|w| - |r|..]
  {
    if |w| > MaxWindowSize then w[|w| - MaxWindowSize..] else w
  }

  datatype Scanned = Scanned(tokens: seq<Token>, crc: Crc32.Crc32)

  /**
   * The outer `loop`: read a byte into a fresh candidate, grow it, emit
   * it, and slide the window over it.
   */
  function Scan(window: seq<bv8>, rest: seq<bv8>, crc: Crc32.Crc32): Scanned
    decreases |rest|
  {
    if |rest| == 0 then Scanned([], crc)
    else
      var g := Grow(window, [rest[0]], rest[1..], -1, Crc32.PushBuf(crc, rest[0]));
      var s := Scan(Trim(window + g.res), g.rest, g.crc);
      Scanned(Emit(g.res, g.offset) + s.tokens, s.crc)
  }

  /**
   * The loop as written: the first byte goes out as a literal before the
   * loop and stays out of the window; an empty input still yields one
   * literal, of the zeroed read buffer's first byte.
   */
  function TokenizeAsWritten(input: seq<bv8>): Scanned
  {
    var first: bv8 := if |input| > 0 then input[0] else 0;
    var s := Scan([], if |input| > 0 then input[1..] else [], Crc32.PushBuf(Crc32.New(), first));
    Scanned([Literal(first)] + s.tokens, s.crc)
  }

  /** The loop with the first literal emitted only when there is a first byte. */
  function Tokenize(input: seq<bv8>): Scanned
  {
    if |input| == 0 then Scanned([], Crc32.New())
    else
      var s := Scan([], input[1..], Crc32.PushBuf(Crc32.New(), input[0]));
      Scanned([Literal(input[0])] + s.tokens, s.crc)
  }

  // ---------------------------------------------------------------------
  // Round trip.
  // ---------------------------------------------------------------------

  /** A copy reproduces `s` when every byte of `s` equals the byte `distance` before it. */
  lemma {:induction false} CopyBackMatch(out: seq<bv8>, s: seq<bv8>, distance: nat)
    requires 1 <= distance <= |out|
    requires forall k :: 0 <= k < |s| ==> (out + s)[|out| - distance + k] == s[k]
    ensures CopyBack(out, |s|, distance) == out + s
    decreases |s|
  {
    if |s| > 0 {
      var out' := out + [s[0]];
      assert (out + s)[|out| - distance] == out[|out| - distance];
      assert out + s == out' + s[1..];
      forall k | 0 <= k < |s[1..]|
        ensures (out' + s[1..])[|out'| - distance + k] == s[1..][k]
      {
        assert (out + s)[|out| - distance + (k + 1)] == s[k + 1];
      }
      CopyBackMatch(out', s[1..], distance);
    }
  }

  /** A match found in a window that ends the output is a valid copy. */
  lemma MatchCopies(out: seq<bv8>, window: seq<bv8>, s: seq<bv8>, d: int)
    requires EndsWith(out, window)
    requires MatchAt(window, s, d)
    ensures 1 <= d <= |out| && CopyBack(out, |s|, d) == out + s
  {
    var w := window + s[..|s| - 1];
    forall k | 0 <= k < |s|
      ensures (out + s)[|out| - d + k] == s[k]
    {
      assert w[|window| - d .. |window| - d + |s|] == s;
      assert w[|window| - d + k] == s[k];
      if k < d {
        assert (out + s)[|out| - d + k] == out[|out| - d + k] == window[|window| - d + k];
      } else {
        assert (out + s)[|out| - d + k] == s[k - d] == w[|window| - d + k];
      }
    }
    CopyBackMatch(out, s, d);
  }

  lemma {:induction false} ExpandLiterals(out: seq<bv8>, s: seq<bv8>, more: seq<Token>)
    ensures Expand(out, Literals(s) + more) == Expand(out + s, more)
    decreases |s|
  {
    if |s| > 0 {
      var ts := Literals(s) + more;
      assert ts[0] == Literal(s[0]);
      assert ts[1..] == Literals(s[1..]) + more;
      assert Expand(out, ts) == Expand(out + [s[0]], ts[1..]);
      ExpandLiterals(out + [s[0]], s[1..], more);
      assert out + [s[0]] + s[1..] == out + s;
    } else {
      assert Literals(s) + more == more && out + s == out;
    }
  }

  /** One emitted candidate replays to the candidate itself. */
  lemma ExpandEmit(out: seq<bv8>, window: seq<bv8>, g: Grown, more: seq<Token>)
    requires EndsWith(out, window)
    requires |g.res| >= MinMatchLen ==> MatchAt(window, g.res, g.offset)
    ensures Expand(out, Emit(g.res, g.offset) + more) == Expand(out + g.res, more)
  {
    if |g.res| < MinMatchLen {
      ExpandLiterals(out, g.res, more);
    } else {
      MatchCopies(out, window, g.res, g.offset);
      assert ([Copy(|g.res|, g.offset as nat)] + more)[1..] == more;
    }
  }

  /** `window` ends `out`. */
  predicate EndsWith(out: seq<bv8>, window: seq<bv8>)
  {
    |window| <= |out| && window == out[|out| - |window|..]
  }

  /** The trimmed window still ends the output once the candidate is appended to both. */
  lemma TrimEnds(out: seq<bv8>, window: seq<bv8>, res: seq<bv8>)
    requires EndsWith(out, window)
    ensures EndsWith(out + res, Trim(window + res))
  {
    var w := window + res;
    var t := Trim(w);
    assert w == (out + res)[|out + res| - |w|..];
    assert t == w[|w| - |t|..];
    assert (out + res)[|out + res| - |w|..][|w| - |t|..] == (out + res)[|out + res| - |t|..];
  }

  /** Replaying the tokens of the rest of the input appends exactly that rest. */
  lemma {:induction false} ScanExpands(window: seq<bv8>, rest: seq<bv8>, crc: Crc32.Crc32, out: seq<bv8>)
    requires EndsWith(out, window)
    ensures Expand(out, Scan(window, rest, crc).tokens) == Some(out + rest)
    decreases |rest|
  {
    if |rest| > 0 {
      var c := Crc32.PushBuf(crc, rest[0]);
      var g := Grow(window, [rest[0]], rest[1..], -1, c);
      var w' := Trim(window + g.res);
      var s := Scan(w', g.rest, g.crc);
      ScanUnfold(window, rest, crc, c, g, w', s);
      GrowMatches(window, [rest[0]], rest[1..], -1, c);
      ExpandEmit(out, window, g, s.tokens);
      TrimEnds(out, window, g.res);
      ScanExpands(w', g.rest, g.crc, out + g.res);
      AppendParts(out, g.res, g.rest, rest);
    } else {
      assert out + rest == out;
    }
  }

  /** One turn of the outer loop. */
  lemma ScanUnfold(window: seq<bv8>, rest: seq<bv8>, crc: Crc32.Crc32, c: Crc32.Crc32, g: Grown, w': seq<bv8>, s: Scanned)
    requires |rest| > 0 && c == Crc32.PushBuf(crc, rest[0])
    requires g == Grow(window, [rest[0]], rest[1..], -1, c)
    requires w' == Trim(window + g.res) && s == Scan(w', g.rest, g.crc)
    ensures Scan(window, rest, crc) == Scanned(Emit(g.res, g.offset) + s.tokens, s.crc)
    ensures g.res + g.rest == rest && |g.rest| < |rest|
  {
  }

  lemma AppendParts(out: seq<bv8>, res: seq<bv8>, left: seq<bv8>, rest: seq<bv8>)
    requires res + left == rest
    ensures out + res + left == out + rest
  {
  }

  /**
   * `Tokenize` of a non-empty input, over named parts: the first byte as a
   * literal, then the scan of the rest over the empty window `w0`.
   */
  lemma TokenizeStep(input: seq<bv8>, x: bv8, rest: seq<bv8>, c1: Crc32.Crc32, w0: seq<bv8>, s: Scanned)
    requires |input| > 0 && input[0] == x && input[1..] == rest && |w0| == 0
    requires c1 == Crc32.PushBuf(Crc32.New(), x) && s == Scan(w0, rest, c1)
    ensures Tokenize(input) == Scanned([Literal(x)] + s.tokens, s.crc)
  {
    assert w0 == [];
  }

  /** A leading literal is appended to the empty output. */
  lemma ExpandLiteral(out0: seq<bv8>, x: bv8, ts: seq<Token>, all: seq<Token>)
    requires |out0| == 0 && all == [Literal(x)] + ts
    ensures Expand(out0, all) == Expand([x], ts)
  {
    assert all[1..] == ts && out0 + [x] == [x];
  }

  /** Decompressing the token list gives the input back. */
  lemma TokenizeRoundTrip(input: seq<bv8>)
    ensures Expand([], Tokenize(input).tokens) == Some(input)
  {
    if |input| > 0 {
      var x, rest, w0 := input[0], input[1..], input[..0];
      var c1 := Crc32.PushBuf(Crc32.New(), x);
      var s := Scan(w0, rest, c1);
      TokenizeStep(input, x, rest, c1, w0, s);
      ScanExpands(w0, rest, c1, [x]);
      ExpandLiteral([], x, s.tokens, Tokenize(input).tokens);
      assert [x] + rest == input;
    }
  }

  // ---------------------------------------------------------------------
  // Bounds.
  // ---------------------------------------------------------------------

  lemma AllFitAppend(a: seq<Token>, b: seq<Token>)
    requires AllFit(a) && AllFit(b)
    ensures AllFit(a + b)
  {
    assert forall i :: 0 <= i < |a| ==> (a + b)[i] == a[i];
    assert forall i :: |a| <= i < |a + b| ==> (a + b)[i] == b[i - |a|];
  }

  /** An emitted candidate carries a length of 3..258 and a distance inside the window. */
  lemma EmitFits(window: seq<bv8>, g: Grown)
    requires |window| <= MaxWindowSize && 1 <= |g.res| <= MaxMatchLen
    requires |g.res| > 1 ==> MatchAt(window, g.res, g.offset)
    requires |g.res| >= MinMatchLen ==> g.offset >= 1
    ensures AllFit(Emit(g.res, g.offset))
  {
  }

  /** With the window kept to 1024 bytes, every reference has length 3..258 and distance 1..1024. */
  lemma {:induction false} ScanFits(window: seq<bv8>, rest: seq<bv8>, crc: Crc32.Crc32)
    requires |window| <= MaxWindowSize
    ensures AllFit(Scan(window, rest, crc).tokens)
    decreases |rest|
  {
    if |rest| > 0 {
      var c := Crc32.PushBuf(crc, rest[0]);
      var g := Grow(window, [rest[0]], rest[1..], -1, c);
      var w' := Trim(window + g.res);
      var s := Scan(w', g.rest, g.crc);
      ScanUnfold(window, rest, crc, c, g, w', s);
      GrowMatches(window, [rest[0]], rest[1..], -1, c);
      EmitFits(window, g);
      ScanFits(w', g.rest, g.crc);
      AllFitAppend(Emit(g.res, g.offset), s.tokens);
    }
  }

  lemma TokenizeFits(input: seq<bv8>)
    ensures AllFit(Tokenize(input).tokens)
  {
    if |input| > 0 {
      var x, rest, w0 := input[0], input[1..], input[..0];
      var c1 := Crc32.PushBuf(Crc32.New(), x);
      var s := Scan(w0, rest, c1);
      TokenizeStep(input, x, rest, c1, w0, s);
      ScanFits(w0, rest, c1);
      AllFitAppend([Literal(x)], s.tokens);
    }
  }

  // ---------------------------------------------------------------------
  // The CRC sees every byte once, in order.
  // ---------------------------------------------------------------------

  lemma PushCons(st: Crc32.Crc32, b: bv8, data: seq<bv8>)
    ensures Crc32.PushAll(Crc32.PushBuf(st, b), data) == Crc32.PushAll(st, [b] + data)
  {
    Crc32.PushAllAppend(st, [b], data);
    assert [b][..0] == [];
  }

  /** One successful turn of the inner loop. */
  lemma GrowUnfold(window: seq<bv8>, res: seq<bv8>, rest: seq<bv8>, offset: int, crc: Crc32.Crc32, d: int)
    requires 1 <= |res| < MaxMatchLen && |rest| > 0
    requires d == MatchCheak(window + res, res + [rest[0]]) && d != -1
    ensures Grow(window, res, rest, offset, crc) == Grow(window, res + [rest[0]], rest[1..], d, Crc32.PushBuf(crc, rest[0]))
  {
  }

  /** The same turn, with the next state given by name. */
  lemma GrowNext(window: seq<bv8>, res: seq<bv8>, rest: seq<bv8>, offset: int, crc: Crc32.Crc32, d: int,
                 res': seq<bv8>, rest': seq<bv8>, crc': Crc32.Crc32)
    requires 1 <= |res| < MaxMatchLen && |rest| > 0
    requires d == MatchCheak(window + res, res + [rest[0]]) && d != -1
    requires res' == res + [rest[0]] && rest' == rest[1..] && crc' == Crc32.PushBuf(crc, rest[0])
    ensures Grow(window, res, rest, offset, crc) == Grow(window, res', rest', d, crc')
  {
    GrowUnfold(window, res, rest, offset, crc, d);
  }

  /** The inner loop stops. */
  lemma GrowStops(window: seq<bv8>, res: seq<bv8>, rest: seq<bv8>, offset: int, crc: Crc32.Crc32)
    requires 1 <= |res| <= MaxMatchLen
    requires |res| == MaxMatchLen || |rest| == 0 || MatchCheak(window + res, res + [rest[0]]) == -1
    ensures Grow(window, res, rest, offset, crc) == Grown(res, rest, offset, crc)
  {
  }

  lemma TakenSplit(taken: seq<bv8>, left: seq<bv8>, res: seq<bv8>, v: bv8, rest: seq<bv8>)
    requires taken + left == (res + [v]) + rest && |taken| >= |res| + 1
    ensures taken[|res|..] == [v] + taken[|res| + 1..]
  {
    assert taken[|res|] == (taken + left)[|res|];
  }

  lemma CrcStep(crc: Crc32.Crc32, v: bv8, tail: seq<bv8>, full: seq<bv8>, after: Crc32.Crc32)
    requires after == Crc32.PushAll(Crc32.PushBuf(crc, v), tail) && full == [v] + tail
    ensures after == Crc32.PushAll(crc, full)
  {
    PushCons(crc, v, tail);
  }

  lemma CrcParts(crc: Crc32.Crc32, taken: seq<bv8>, left: seq<bv8>, middle: Crc32.Crc32, after: Crc32.Crc32, full: seq<bv8>)
    requires middle == Crc32.PushAll(crc, taken) && after == Crc32.PushAll(middle, left) && full == taken + left
    ensures after == Crc32.PushAll(crc, full)
  {
    Crc32.PushAllAppend(crc, taken, left);
  }

  /** Growing feeds the CRC exactly the bytes the candidate took in. */
  lemma {:induction false} GrowCrc(window: seq<bv8>, res: seq<bv8>, rest: seq<bv8>, offset: int, crc: Crc32.Crc32)
    requires 1 <= |res| <= MaxMatchLen
    ensures var g := Grow(window, res, rest, offset, crc);
      g.crc == Crc32.PushAll(crc, g.res[|res|..])
    decreases |rest|
  {
    if |res| < MaxMatchLen && |rest| > 0 && MatchCheak(window + res, res + [rest[0]]) != -1 {
      var d := MatchCheak(window + res, res + [rest[0]]);
      var c := Crc32.PushBuf(crc, rest[0]);
      var res' := res + [rest[0]];
      var g := Grow(window, res', rest[1..], d, c);
      GrowUnfold(window, res, rest, offset, crc, d);
      assert Grow(window, res, rest, offset, crc) == g;
      GrowCrc(window, res', rest[1..], d, c);
      assert g.crc == Crc32.PushAll(c, g.res[|res'|..]);
      TakenSplit(g.res, g.rest, res, rest[0], rest[1..]);
      assert g.res[|res|..] == [rest[0]] + g.res[|res'|..];
      CrcStep(crc, rest[0], g.res[|res'|..], g.res[|res|..], g.crc);
      assert g.crc == Crc32.PushAll(crc, g.res[|res|..]);
    } else {
      GrowStops(window, res, rest, offset, crc);
      assert res[|res|..] == [];
    }
  }

  /** The outer loop feeds the CRC exactly the rest of the input. */
  lemma {:induction false} ScanCrc(window: seq<bv8>, rest: seq<bv8>, crc: Crc32.Crc32)
    ensures Scan(window, rest, crc).crc == Crc32.PushAll(crc, rest)
    decreases |rest|
  {
    if |rest| > 0 {
      var c := Crc32.PushBuf(crc, rest[0]);
      var g := Grow(window, [rest[0]], rest[1..], -1, c);
      var w' := Trim(window + g.res);
      var s := Scan(w', g.rest, g.crc);
      ScanUnfold(window, rest, crc, c, g, w', s);
      GrowCrc(window, [rest[0]], rest[1..], -1, c);
      ScanCrc(w', g.rest, g.crc);
      assert g.res[0] == (g.res + g.rest)[0];
      assert g.res == [rest[0]] + g.res[1..];
      CrcStep(crc, rest[0], g.res[1..], g.res, g.crc);
      CrcParts(crc, g.res, g.rest, g.crc, s.crc, rest);
    } else {
      assert Crc32.PushAll(crc, rest) == crc;
    }
  }

  /** The CRC state of the encoder is that of the whole input, fed in order. */
  lemma TokenizeCrc(input: seq<bv8>)
    ensures Tokenize(input).crc == Crc32.PushAll(Crc32.New(), input)
  {
    if |input| > 0 {
      var x, rest, w0 := input[0], input[1..], input[..0];
      var c1 := Crc32.PushBuf(Crc32.New(), x);
      var s := Scan(w0, rest, c1);
      TokenizeStep(input, x, rest, c1, w0, s);
      ScanCrc(w0, rest, c1);
      PushCons(Crc32.New(), x, rest);
      assert [x] + rest == input;
    } else {
      assert Crc32.PushAll(Crc32.New(), input) == Crc32.New();
    }
  }

  // ---------------------------------------------------------------------
  // The first literal.
  // ---------------------------------------------------------------------

  /** On a non-empty input the loop as written and the corrected one agree. */
  lemma TokenizeAgrees(input: seq<bv8>)
    requires |input| > 0
    ensures TokenizeAsWritten(input) == Tokenize(input)
  {
  }

  /**
   * As written, an empty input yields a stream that decompresses to one
   * zero byte, and the CRC is that of this byte, while the declared
   * size is 0.
   */
  lemma EmptyInputAsWritten()
    ensures TokenizeAsWritten([]).tokens == [Literal(0)]
    ensures Expand([], TokenizeAsWritten([]).tokens) == Some([0])
    ensures TokenizeAsWritten([]).crc == Crc32.PushAll(Crc32.New(), [0])
  {
    assert Crc32.PushAll(Crc32.New(), [0]) == Crc32.PushBuf(Crc32.PushAll(Crc32.New(), []), 0);
    assert [Literal(0)][1..] == [] && [] + [0 as bv8] == [0];
  }

  // ---------------------------------------------------------------------
  // Length 258 is reached.
  // ---------------------------------------------------------------------

  /** `n` copies of `x`. */
  function Run(x: bv8, n: nat): (r: seq<bv8>)
    ensures |r| == n
  {
    seq(n, _ => x)
  }

  lemma RunOne(x: bv8)
    ensures Run(x, 1) == [x]
  {
    assert Run(x, 0) == [];
  }

  lemma RunSplit(x: bv8, m: nat)
    requires m > 0
    ensures Run(x, m)[0] == x && Run(x, m)[1..] == Run(x, m - 1)
  {
  }

  /** One turn of `Scan`, over named parts. */
  lemma ScanStep(window: seq<bv8>, rest: seq<bv8>, crc: Crc32.Crc32, v: bv8, first: seq<bv8>, tail: seq<bv8>,
                 c: Crc32.Crc32, g: Grown, w': seq<bv8>, s: Scanned)
    requires |rest| > 0 && v == rest[0] && first == [v] && tail == rest[1..] && c == Crc32.PushBuf(crc, v)
    requires g == Grow(window, first, tail, -1, c) && w' == Trim(window + g.res) && s == Scan(w', g.rest, g.crc)
    ensures Scan(window, rest, crc).tokens == Emit(g.res, g.offset) + s.tokens
  {
    ScanUnfold(window, rest, crc, c, g, w', s);
  }

  /**
   * A run of `n` equal bytes, 5 <= n <= 260: two literals, then a single
   * reference to the byte just before it for the other `n - 2` bytes.
   */
  lemma RunTokens(x: bv8, n: nat)
    requires 5 <= n <= MaxMatchLen + 2
    ensures Tokenize(Run(x, n)).tokens == [Literal(x), Literal(x), Copy(n - 2, 1)]
  {
    var c1 := Crc32.PushBuf(Crc32.New(), x);
    RunSplit(x, n);
    var w0 := Run(x, 0);
    var s1 := Scan(w0, Run(x, n - 1), c1);
    var after := RunAfterFirst(x, n - 1, c1, w0, Run(x, n - 1));
    TokenizeStep(Run(x, n), x, Run(x, n - 1), c1, w0, s1);
    TwoLiteralsThenCopy(x, after, n - 2);
  }

  /** After the first byte of the run: one more literal, then the reference. */
  lemma RunAfterFirst(x: bv8, m: nat, c1: Crc32.Crc32, w0: seq<bv8>, r: seq<bv8>) returns (after: seq<Token>)
    requires 4 <= m <= MaxMatchLen + 1 && |w0| == 0 && r == Run(x, m)
    ensures after == [Copy(m - 1, 1)]
    ensures Scan(w0, r, c1).tokens == [Literal(x)] + after
  {
    var c2 := Crc32.PushBuf(c1, x);
    RunSplit(x, m);
    RunOne(x);
    RunSecondTurn(x, c2, m - 1);
    after := [Copy(m - 1, 1)];
    ScanFirstLiteral(w0, r, c1, x, Run(x, m - 1), c2, Run(x, 1), after);
  }

  lemma TwoLiteralsThenCopy(x: bv8, after: seq<Token>, length: nat)
    requires after == [Copy(length, 1)]
    ensures [Literal(x)] + ([Literal(x)] + after) == [Literal(x), Literal(x), Copy(length, 1)]
  {
  }

  /**
   * 260 equal bytes end in a reference of the full 258 bytes, the length
   * `length_extra` has no bracket for.
   */
  lemma LongRunReaches258(x: bv8)
    ensures Tokenize(Run(x, 260)).tokens == [Literal(x), Literal(x), Copy(258, 1)]
  {
    RunTokens(x, 260);
  }

  /** With the window still empty, the first byte read stays a literal. */
  lemma ScanFirstLiteral(w0: seq<bv8>, rest: seq<bv8>, c1: Crc32.Crc32, x: bv8, tail: seq<bv8>, c2: Crc32.Crc32, w1: seq<bv8>,
                         after: seq<Token>)
    requires |w0| == 0 && |rest| > 0 && rest[0] == x && tail == rest[1..] && c2 == Crc32.PushBuf(c1, x) && w1 == [x]
    requires Scan(w1, tail, c2).tokens == after
    ensures Scan(w0, rest, c1).tokens == [Literal(x)] + after
  {
    var g1 := Grown(w1, tail, -1, c2);
    FirstStops(w0, w1, tail, c2);
    TrimFirst(w0, w1);
    EmitFirst(x, w1);
    ScanStep(w0, rest, c1, x, w1, tail, c2, g1, w1, Scan(w1, tail, c2));
  }

  /** A single byte with an empty window does not grow: there is nothing to find it in. */
  lemma FirstStops(w0: seq<bv8>, first: seq<bv8>, tail: seq<bv8>, c: Crc32.Crc32)
    requires |w0| == 0 && |first| == 1
    ensures Grow(w0, first, tail, -1, c) == Grown(first, tail, -1, c)
  {
    if |tail| > 0 {
      assert |w0 + first| < |first + [tail[0]]|;
    }
    GrowStops(w0, first, tail, -1, c);
  }

  lemma TrimFirst(w0: seq<bv8>, first: seq<bv8>)
    requires |w0| == 0 && |first| == 1
    ensures Trim(w0 + first) == first
  {
    assert w0 + first == first;
  }

  lemma EmitFirst(x: bv8, first: seq<bv8>)
    requires first == [x]
    ensures Emit(first, -1) == [Literal(x)]
  {
  }

  /** A run of `n` bytes `x` after one more `x` grows whole, found one byte back. */
  lemma RunGrown(x: bv8, c: Crc32.Crc32, n: nat) returns (g: Grown)
    requires MinMatchLen <= n <= MaxMatchLen
    ensures g == Grow(Run(x, 1), Run(x, 1), Run(x, n - 1), -1, c)
    ensures |g.res| == n && |g.rest| == 0 && g.offset == 1
  {
    g := Grow(Run(x, 1), Run(x, 1), Run(x, n - 1), -1, c);
    GrowMatches(Run(x, 1), Run(x, 1), Run(x, n - 1), -1, c);
    if |g.rest| > 0 {
      RunKeepsGrowing(x, g.res, g.rest, n);
      assert false;
    }
    OffsetInShortWindow(Run(x, 1), g.res, g.offset);
  }

  /** Part of a run, followed by more of it, is found again over a window of one more copy. */
  lemma RunKeepsGrowing(x: bv8, res: seq<bv8>, rest: seq<bv8>, n: nat)
    requires n >= 1 && res + rest == Run(x, 1) + Run(x, n - 1) && |rest| > 0
    ensures MatchCheak(Run(x, 1) + res, res + [rest[0]]) != -1
  {
    var all := Run(x, 1) + Run(x, n - 1);
    assert forall i :: 0 <= i < |all| ==> all[i] == x;
    var w, c := Run(x, 1) + res, res + [rest[0]];
    assert rest[0] == all[|res|];
    forall i | 0 <= i < |c|
      ensures w[i] == x && c[i] == x
    {
      if i > 0 {
        assert w[i] == all[i - 1];
      }
      if i < |res| {
        assert c[i] == all[i];
      }
    }
    assert w[0..|c|] == c;
    assert OccursAt(w, c, 0);
  }

  /** In a window of one byte the only offset is 1. */
  lemma OffsetInShortWindow(window: seq<bv8>, s: seq<bv8>, d: int)
    requires |window| == 1 && MatchAt(window, s, d)
    ensures d == 1
  {
  }
  /** Over a window of one byte, a run of 3..258 more equal bytes becomes a single reference. */
  lemma RunSecondTurn(x: bv8, c2: Crc32.Crc32, n: nat)
    requires MinMatchLen <= n <= MaxMatchLen
    ensures Scan(Run(x, 1), Run(x, n), c2).tokens == [Copy(n, 1)]
  {
    var c3 := Crc32.PushBuf(c2, x);
    RunSplit(x, n);
    RunOne(x);
    var g := RunGrown(x, c3, n);
    var w' := Trim(Run(x, 1) + g.res);
    var s := Scan(w', g.rest, g.crc);
    ScanStep(Run(x, 1), Run(x, n), c2, x, Run(x, 1), Run(x, n - 1), c3, g, w', s);
    assert s.tokens == [];
    assert Emit(g.res, g.offset) == [Copy(n, 1)];
  }
}
