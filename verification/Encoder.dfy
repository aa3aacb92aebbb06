// The encoder of idna/punycode.go (section 6.3 of RFC 3492), in wrapping int32 arithmetic.

module Encoder {
  import opened Arithmetic
  import opened Checks
  import opened Insertions
  import opened Int32
  import opened Punycode
  import opened RoundTrip
  import opened Tracking
  import opened Wrappers

  /** The innermost loop: appends the digits of delta. */
  method AppendVarInt(output: Str, delta: int, bias: int) returns (r: Str)
    requires 0 <= delta <= MAX && 0 <= bias <= 213
    ensures r == output + VarInt(delta, BASE, bias)
  {
    r := output;
    var q, k := delta, BASE;
    ghost var w := 1;
    while true
      invariant Weighed(q, w, k) && r + VarInt(q, k, bias) == output + VarInt(delta, BASE, bias)
      decreases q
    {
      var t := Threshold(k, bias);
      if q < t {
        break;
      }
      NextWeighed(q, w, k, t);
      hide Threshold, VarInt, Digit, Rest, Wrap;
      r := r + [EncodeDigit(Digit(q, t))];
      w := w * (BASE - t);
      q := Rest(q, t);
      k := Wrap(k + BASE);
    }
    r := r + [EncodeDigit(q)];
  }

  /** Where the loop stands: w is the weight of the next digit, and k grows far more slowly than w. */
  ghost predicate Weighed(q: int, w: int, k: int) {
    && 0 <= q && 0 < w && q * w <= MAX
    && ((w == 1 && k == BASE) || (w >= 10 && BASE <= k && 2 * k <= 144 + w))
  }

  lemma NextWeighed(q: nat, w: nat, k: int, t: int)
    requires Weighed(q, w, k) && TMIN <= t <= TMAX && t <= q
    ensures Weighed(Rest(q, t), w * (BASE - t), k + BASE) && Rest(q, t) < q && InRange(k + BASE)
  {
    RestWeight(q, w, t);
    MulMonotone(w, 1, t);
    MulMonotone(w, 10, BASE - t);
    hide Rest;
  }

  /** The smallest code point of s from n on, or the largest int32. */
  method NextCodePoint(s: Str, n: int) returns (m: int)
    ensures n <= m || m == MAX
    ensures forall k :: 0 <= k < |s| && n <= s[k] ==> m <= s[k]
    ensures m != MAX ==> exists k :: 0 <= k < |s| && s[k] == m
    ensures (exists k :: 0 <= k < |s| && n <= s[k]) ==> m != MAX && n <= m
  {
    m := MAX;
    for i := 0 to |s|
      invariant n <= m || m == MAX
      invariant forall k :: 0 <= k < i && n <= s[k] ==> m <= s[k]
      invariant m != MAX ==> exists k :: 0 <= k < i && s[k] == m
      invariant m == MAX ==> forall k :: 0 <= k < i ==> s[k] < n
    {
      if m > s[i] >= n {
        m := s[i];
      }
    }
  }

  /** The variables of the encoder's outer loop. */
  datatype Vars = Vars(output: Str, delta: int, bias: int, h: int, remaining: int)

  /** The state of the encoder in the scan for n. */
  ghost predicate Scanning(prefix: Str, s: Str, n: int, j: nat, v: Vars, c: Counter) {
    && j <= |s| && v.h == |Handled(s, n, j)| && |Basic(s)| <= v.h && v.remaining == |s| - v.h
    && InRange(v.delta) && 0 <= v.bias <= 213
    && Tracks(prefix, s, n, j, c, v.delta, v.bias, v.output)
  }

  /** One code point equal to n: its distance is written and the bias adapted. */
  method EncodeOne(prefix: Str, s: Str, n: int, j: nat, v: Vars, ghost c: Counter)
    returns (after: Vars, ghost moved: Counter)
    requires |s| < MAX && Scanning(prefix, s, n, j, v, c) && 0 <= v.delta
    requires j < |s| && s[j] == n && n <= MAX_RUNE
    ensures Scanning(prefix, s, n, j + 1, after, moved) && after.delta == 0 && after.h == v.h + 1
  {
    HandledBelow(s, n, j, v.h);
    HandledInsert(s, n, j);
    TracksInsert(prefix, s, n, j, c, v.delta, v.bias, v.output);
    hide Tracks, Handled, Before, VarInt, AdaptSpec;
    var output := AppendVarInt(v.output, v.delta, v.bias);
    var bias := Adapt(v.delta, Wrap(v.h + 1), v.h == |Basic(s)|);
    after := Vars(output, 0, bias, Wrap(v.h + 1), Wrap(v.remaining - 1));
    moved := Moved(s, n, j, c);
  }

  /** A code point other than n only moves delta. */
  lemma ScanSkips(prefix: Str, s: Str, n: int, j: nat, v: Vars, c: Counter)
    requires Scanning(prefix, s, n, j, v, c) && 0 <= v.delta && j < |s| && s[j] != n && n <= MAX_RUNE
    ensures Scanning(prefix, s, n, j + 1, v.(delta := if s[j] < n then Wrap(v.delta + 1) else v.delta), c)
  {
    HandledSkip(s, n, j);
    TracksSkip(prefix, s, n, j, c, v.delta, v.bias, v.output);
  }

  /** The scan of the whole string for the code point n; None is the overflow exit. */
  method EncodePass(prefix: Str, s: Str, n: int, v0: Vars, ghost c0: Counter)
    returns (r: Option<Vars>, ghost c: Counter)
    requires |s| < MAX && Scanning(prefix, s, n, 0, v0, c0) && 0 <= v0.delta
    requires INITIAL_N <= n <= MAX_RUNE && n in s
    ensures r.Some? ==> Scanning(prefix, s, n, |s|, r.value, c) && 0 <= r.value.delta && v0.h < r.value.h
    ensures r.None? ==> Caught(s)
  {
    hide Scanning, Caught, Wrap;
    var v := v0;
    c := c0;
    for j := 0 to |s|
      invariant Scanning(prefix, s, n, j, v, c) && 0 <= v.delta
      invariant v0.h <= v.h && (n in s[..j] ==> v0.h < v.h)
    {
      assert s[..j + 1] == s[..j] + [s[j]];
      if s[j] != n {
        ScanSkips(prefix, s, n, j, v, c);
      }
      if s[j] < n {
        v := v.(delta := Wrap(v.delta + 1));
        if v.delta < 0 {
          ScanCaught(prefix, s, n, j + 1, v, c);
          return None, c;
        }
      } else if s[j] == n {
        v, c := EncodeOne(prefix, s, n, j, v, c);
      }
    }
    assert s[..|s|] == s;
    return Some(v), c;
  }

  lemma ScanCaught(prefix: Str, s: Str, n: int, j: nat, v: Vars, c: Counter)
    requires Scanning(prefix, s, n, j, v, c) && n <= MAX_RUNE && n in s && v.delta < 0
    ensures Caught(s)
  {
    TracksCaught(prefix, s, n, j, c, v.delta, v.bias, v.output);
  }

  lemma SomethingLeft(s: Str, n: int)
    requires |Handled(s, n, 0)| < |s|
    ensures exists k :: 0 <= k < |s| && n <= s[k]
  {
    assert s[..0] == [] && s[0..] == s;
    UpToShorter(s, n - 1);
  }

  /** The jump to the next code point m that occurs in s. */
  lemma Leap(prefix: Str, s: Str, n: int, m: int, v: Vars, c: Counter)
    requires Scanning(prefix, s, n, 0, v, c) && INITIAL_N <= n <= m <= MAX_RUNE
    requires forall k :: 0 <= k < |s| ==> s[k] < n || m <= s[k]
    ensures Scanning(prefix, s, m, 0, v.(delta := Wrap(v.delta + Wrap((m - n) * (v.h + 1)))), c)
  {
    assert s[..0] == [] && s[0..] == s;
    UpToGap(s, n - 1, m - 1);
    TracksJump(prefix, s, n, m, c, v.delta, v.bias, v.output);
  }

  /** The end of the pass for n. */
  lemma PassEnds(prefix: Str, s: Str, n: int, v: Vars, c: Counter)
    requires Scanning(prefix, s, n, |s|, v, c) && n <= MAX_RUNE && 0 <= v.delta
    ensures Scanning(prefix, s, n + 1, 0, v.(delta := Wrap(v.delta + 1)), c)
  {
    HandledNext(s, n);
    TracksNext(prefix, s, n, c, v.delta, v.bias, v.output);
  }

  /** The first loop: copies the basic code points and counts both kinds. */
  method CopyBasic(prefix: Str, s: Str) returns (output: Str, b: int, remaining: int)
    requires |s| < MAX
    ensures output == Head(prefix, s) && b == |Basic(s)| && remaining == |s| - |Basic(s)|
  {
    output, b, remaining := prefix, 0, 0;
    for i := 0 to |s|
      invariant output == prefix + Basic(s[..i]) && b == |Basic(s[..i])| && remaining == i - b
    {
      UpToExtend(s, i, 127);
      if s[i] < 0x80 {
        b := Wrap(b + 1);
        output := output + [s[i]];
      } else {
        remaining := Wrap(remaining + 1);
      }
    }
    assert s[..|s|] == s;
    if b > 0 {
      output := output + [DASH];
    }
  }

  /** The written insertions behind the basic part, or an error. */
  function EncodeInt32(prefix: Str, s: Str): Result<Str> {
    if Caught(s) then Err else Ok(Head(prefix, s) + Digits(WrittenOf(s)))
  }

  /** An error if and only if a sign test fires; otherwise the distances are written as int32 keeps them. */
  method Encode(prefix: Str, s: Str) returns (r: Result<Str>)
    requires |s| < MAX
    ensures r == EncodeInt32(prefix, s)
  {
    var output, b, remaining := CopyBasic(prefix, s);
    var v, n := Vars(output, 0, INITIAL_BIAS, b, remaining), INITIAL_N;
    ghost var c := START;
    TracksStart(prefix, s);
    while v.remaining != 0
      invariant INITIAL_N <= n <= MAX_RUNE + 1
      invariant Scanning(prefix, s, n, 0, v, c)
      decreases v.remaining
    {
      SomethingLeft(s, n);
      var m := NextCodePoint(s, n);
      Leap(prefix, s, n, m, v, c);
      v := v.(delta := Wrap(v.delta + Wrap((m - n) * Wrap(v.h + 1))));
      if v.delta < 0 {
        ScanCaught(prefix, s, m, 0, v, c);
        return Err;
      }
      n := m;
      var pass;
      pass, c := EncodePass(prefix, s, n, v, c);
      if pass.None? {
        return Err;
      }
      v := pass.value;
      PassEnds(prefix, s, n, v, c);
      v := v.(delta := Wrap(v.delta + 1));
      n := Wrap(n + 1);
    }
    TracksEnd(prefix, s, n, c, v.delta, v.bias, v.output);
    return Ok(v.output);
  }
}
