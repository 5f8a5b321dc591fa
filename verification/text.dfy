/** The `Option` datatype used throughout the model. */
module Wrappers {

  datatype Option<+T> = None | Some(value: T)
}

/**
  String operations from Rust's standard library that the program relies on:
  `str::replace` (left-to-right, non-overlapping replace-all), `[&str]::join`,
  and the decimal rendering of an unsigned integer. Strings are `seq<char>`;
  Rust's char boundaries are the positions of this sequence.
 */
module Text {
  import opened Wrappers

  predicate StartsWith(s: string, p: string) {
    |p| <= |s| && s[..|p|] == p
  }

  /** `p` occurs in `s` at index `i`. */
  predicate OccursAt(s: string, p: string, i: nat) {
    i + |p| <= |s| && s[i..i + |p|] == p
  }

  predicate Occurs(s: string, p: string) {
    exists i: nat | i <= |s| :: OccursAt(s, p, i)
  }

  /**
    `s.replace(from, to)`: scan left to right; where `from` starts, emit `to`
    and skip past the match, otherwise copy one character. An empty `from`
    matches at every character boundary, including both ends.
   */
  function ReplaceAll(s: string, from: string, to: string): string
    decreases |s|
  {
    if |from| == 0 then Interleave(s, to)
    else if |s| == 0 then []
    else if StartsWith(s, from) then to + ReplaceAll(s[|from|..], from, to)
    else [s[0]] + ReplaceAll(s[1..], from, to)
  }

  /** The replacement by an empty pattern: `to` before, between and after the characters. */
  function Interleave(s: string, to: string): string
    decreases |s|
  {
    if |s| == 0 then to else to + [s[0]] + Interleave(s[1..], to)
  }

  /** A string in which the pattern does not occur comes back unchanged. */
  lemma {:induction false} ReplaceAbsent(s: string, from: string, to: string)
    requires |from| > 0 && !Occurs(s, from)
    ensures ReplaceAll(s, from, to) == s
    decreases |s|
  {
    if |s| > 0 {
      assert !OccursAt(s, from, 0);
      if Occurs(s[1..], from) {
        var i: nat :| i <= |s[1..]| && OccursAt(s[1..], from, i);
        assert s[i + 1..i + 1 + |from|] == s[1..][i..i + |from|];
        assert OccursAt(s, from, i + 1);
      }
      ReplaceAbsent(s[1..], from, to);
    }
  }

  /** A leading occurrence is replaced, and the rest is processed on its own. */
  lemma ReplaceLeading(from: string, rest: string, to: string)
    requires |from| > 0
    ensures ReplaceAll(from + rest, from, to) == to + ReplaceAll(rest, from, to)
  {
    assert (from + rest)[..|from|] == from;
    assert (from + rest)[|from|..] == rest;
  }

  /**
    A prefix containing no character that can start a match is copied, and
    the replacement continues after it.
   */
  lemma {:induction false} ReplaceSkipsPrefix(x: string, y: string, from: string, to: string)
    requires |from| > 0 && from[0] !in x
    ensures ReplaceAll(x + y, from, to) == x + ReplaceAll(y, from, to)
    decreases |x|
  {
    if |x| > 0 {
      assert (x + y)[0] == x[0];
      assert !StartsWith(x + y, from);
      assert (x + y)[1..] == x[1..] + y;
      assert from[0] !in x[1..];
      ReplaceSkipsPrefix(x[1..], y, from, to);
      assert ReplaceAll(x + y, from, to) == [x[0]] + ReplaceAll(x[1..] + y, from, to);
      assert [x[0]] + x[1..] == x;
    } else {
      assert x + y == y;
    }
  }

  /**
    Text in which no occurrence of the pattern starts is copied unchanged,
    and the replacement goes on after it.
   */
  lemma {:induction false} ReplaceCopiesUntil(x: string, y: string, from: string, to: string)
    requires |from| > 0
    requires forall i :: 0 <= i < |x| ==> !OccursAt(x + y, from, i)
    ensures ReplaceAll(x + y, from, to) == x + ReplaceAll(y, from, to)
    decreases |x|
  {
    if |x| == 0 {
      assert x + y == y;
    } else {
      var z := x[1..] + y;
      assert x + y == [x[0]] + z;
      assert !OccursAt(x + y, from, 0);
      ReplaceCopiesOne(x[0], z, from, to);
      forall i | 0 <= i < |x[1..]|
        ensures !OccursAt(z, from, i)
      {
        assert !OccursAt(x + y, from, i + 1);
        OccursShift(x[0], z, from, i);
      }
      ReplaceCopiesUntil(x[1..], y, from, to);
      assert [x[0]] + x[1..] == x;
    }
  }

  /** A character at which no occurrence starts is copied. */
  lemma ReplaceCopiesOne(c: char, z: string, from: string, to: string)
    requires |from| > 0 && !OccursAt([c] + z, from, 0)
    ensures ReplaceAll([c] + z, from, to) == [c] + ReplaceAll(z, from, to)
  {
    assert ([c] + z)[1..] == z;
  }

  lemma OccursShift(c: char, z: string, from: string, i: nat)
    ensures OccursAt([c] + z, from, i + 1) <==> OccursAt(z, from, i)
  {
    if i + |from| <= |z| {
      assert ([c] + z)[i + 1..i + 1 + |from|] == z[i..i + |from|];
    }
  }

  /**
    Every occurrence is replaced, not only a leading one: the first occurrence
    becomes `to` wherever it stands, the text before it is kept, and the scan
    goes on after it.
   */
  lemma ReplaceAtFirst(x: string, from: string, y: string, to: string)
    requires |from| > 0
    requires forall i :: 0 <= i < |x| ==> !OccursAt(x + from + y, from, i)
    ensures ReplaceAll(x + from + y, from, to) == x + to + ReplaceAll(y, from, to)
  {
    assert x + from + y == x + (from + y);
    ReplaceCopiesUntil(x, from + y, from, to);
    ReplaceLeading(from, y, to);
  }

  /**
    When the replacement is one character that is not in the pattern, no
    occurrence of the pattern is left anywhere in the result.
   */
  lemma {:induction false} ReplaceLeavesNone(s: string, from: string, t: char)
    requires |from| > 0 && t !in from
    ensures forall i: nat :: !OccursAt(ReplaceAll(s, from, [t]), from, i)
    decreases |s|
  {
    var r := ReplaceAll(s, from, [t]);
    if |s| > 0 {
      var lead := StartsWith(s, from);
      var c := if lead then t else s[0];
      var tail := ReplaceAll(if lead then s[|from|..] else s[1..], from, [t]);
      ReplaceLeavesNone(if lead then s[|from|..] else s[1..], from, t);
      assert r == [c] + tail;
      forall i: nat
        ensures !OccursAt(r, from, i)
      {
        if i > 0 {
          OccursShift(c, tail, from, i - 1);
        } else {
          ReplaceNoLeading(s, from, t);
        }
      }
    }
  }

  lemma ReplaceNoLeading(s: string, from: string, t: char)
    requires |from| > 0 && t !in from && |s| > 0
    ensures !OccursAt(ReplaceAll(s, from, [t]), from, 0)
  {
    if StartsWith(s, from) {
      assert ReplaceAll(s, from, [t])[0] == t;
    } else {
      var tail := ReplaceAll(s[1..], from, [t]);
      assert ReplaceAll(s, from, [t]) == [s[0]] + tail;
      if OccursAt(ReplaceAll(s, from, [t]), from, 0) {
        assert tail[..|from| - 1] == from[1..];
        PrefixSurvives(s[1..], from, from[1..], t);
      }
    }
  }

  /** A prefix of the result free of the replacement character was already a prefix of the input. */
  lemma {:induction false} PrefixSurvives(y: string, from: string, p: string, t: char)
    requires |from| > 0 && t !in p
    requires StartsWith(ReplaceAll(y, from, [t]), p)
    ensures StartsWith(y, p)
    decreases |y|
  {
    if |y| > 0 && StartsWith(y, from) {
      assert ReplaceAll(y, from, [t])[0] == t;
    } else if |p| > 0 && |y| > 0 {
      var tail := ReplaceAll(y[1..], from, [t]);
      assert ReplaceAll(y, from, [t]) == [y[0]] + tail;
      assert tail[..|p| - 1] == p[1..];
      assert t !in p[1..];
      PrefixSurvives(y[1..], from, p[1..], t);
      assert y[..|p|] == [y[0]] + y[1..][..|p| - 1];
    }
  }

  /**
    With an empty pattern the replacement character sits at every even index
    and the original characters at the odd ones.
   */
  lemma {:induction false} InterleaveLayout(s: string, t: char)
    ensures |Interleave(s, [t])| == 2 * |s| + 1
    ensures forall i :: 0 <= i < |Interleave(s, [t])| && i % 2 == 0 ==> Interleave(s, [t])[i] == t
    ensures forall i :: 0 <= i < |Interleave(s, [t])| && i % 2 == 1 ==> Interleave(s, [t])[i] == s[i / 2]
    decreases |s|
  {
    if |s| > 0 {
      InterleaveLayout(s[1..], t);
      var r := Interleave(s, [t]);
      var r' := Interleave(s[1..], [t]);
      assert r == [t, s[0]] + r';
      forall i | 2 <= i < |r|
        ensures r[i] == r'[i - 2]
      {
      }
    }
  }

  /**
    Round trip: replacing `from` by a character `t` absent from `s`, and then
    `t` by `from`, restores `s`; this holds for an empty `from` as well.
   */
  lemma {:induction false} ReplaceRoundTrip(s: string, from: string, t: char)
    requires t !in s
    ensures ReplaceAll(ReplaceAll(s, from, [t]), [t], from) == s
    decreases |s|
  {
    if |from| == 0 {
      InterleaveRoundTrip(s, t);
    } else if |s| > 0 {
      assert t !in s[1..];
      if StartsWith(s, from) {
        ReplaceRoundTrip(s[|from|..], from, t);
        ReplaceLeading([t], ReplaceAll(s[|from|..], from, [t]), from);
        assert s[..|from|] + s[|from|..] == s;
      } else {
        ReplaceRoundTrip(s[1..], from, t);
        ReplaceSkipsPrefix([s[0]], ReplaceAll(s[1..], from, [t]), [t], from);
        assert [s[0]] + s[1..] == s;
      }
    }
  }

  lemma {:induction false} InterleaveRoundTrip(s: string, t: char)
    requires t !in s
    ensures ReplaceAll(Interleave(s, [t]), [t], []) == s
    decreases |s|
  {
    if |s| == 0 {
      ReplaceLeading([t], [], []);
    } else {
      assert t !in s[1..];
      InterleaveRoundTrip(s[1..], t);
      var rest := Interleave(s[1..], [t]);
      assert Interleave(s, [t]) == [t] + ([s[0]] + rest);
      ReplaceLeading([t], [s[0]] + rest, []);
      ReplaceSkipsPrefix([s[0]], rest, [t], []);
      assert [s[0]] + s[1..] == s;
    }
  }

  /** The index of the first `c` in `s`. */
  function FirstIndex(s: string, c: char): (i: nat)
    requires c in s
    ensures i < |s| && s[i] == c && c !in s[..i]
  {
    if s[0] == c then 0
    else
      assert c in s[1..];
      var j := FirstIndex(s[1..], c);
      assert s[..j + 1] == [s[0]] + s[1..][..j];
      j + 1
  }

  lemma FirstIndexOfFirst(x: string, c: char, y: string)
    requires c !in x
    ensures c in x + [c] + y && FirstIndex(x + [c] + y, c) == |x|
  {
    var s := x + [c] + y;
    assert s[|x|] == c;
    var i := FirstIndex(s, c);
  }

  /** The text before the first `c`, and the text after it; `None` when `c` does not occur. */
  function TakeUntil(s: string, c: char): (r: Option<(string, string)>)
    ensures r.Some? <==> c in s
    ensures r.Some? ==> c !in r.value.0 && s == r.value.0 + [c] + r.value.1
  {
    if c in s then
      var i := FirstIndex(s, c);
      assert s == s[..i] + [c] + s[i + 1..];
      Some((s[..i], s[i + 1..]))
    else None
  }

  lemma TakeUntilFirst(x: string, c: char, y: string)
    requires c !in x
    ensures TakeUntil(x + [c] + y, c) == Some((x, y))
  {
    FirstIndexOfFirst(x, c, y);
    var s := x + [c] + y;
    assert s[..|x|] == x;
    assert s[|x| + 1..] == y;
  }

  /** `parts.join(sep)`: the parts in order with `sep` between neighbours. */
  function Join(parts: seq<string>, sep: string): string
    decreases |parts|
  {
    if |parts| == 0 then []
    else if |parts| == 1 then parts[0]
    else parts[0] + sep + Join(parts[1..], sep)
  }

  /** `s.split(c)`: the maximal pieces between the occurrences of `c`. */
  function Split(s: string, c: char): (r: seq<string>)
    ensures |r| > 0
    decreases |s|
  {
    if c in s then
      var i := FirstIndex(s, c);
      [s[..i]] + Split(s[i + 1..], c)
    else [s]
  }

  /** Splitting a join at a separator absent from every part gives the parts back. */
  lemma {:induction false} SplitJoin(parts: seq<string>, c: char)
    requires |parts| > 0
    requires forall k :: 0 <= k < |parts| ==> c !in parts[k]
    ensures Split(Join(parts, [c]), c) == parts
    decreases |parts|
  {
    if |parts| > 1 {
      var rest := Join(parts[1..], [c]);
      SplitJoin(parts[1..], c);
      TakeUntilFirst(parts[0], c, rest);
      FirstIndexOfFirst(parts[0], c, rest);
      var s := parts[0] + [c] + rest;
      assert s[..|parts[0]|] == parts[0];
      assert s[|parts[0]| + 1..] == rest;
      assert [parts[0]] + parts[1..] == parts;
    }
  }

  function DigitChar(d: nat): (c: char)
    requires d < 10
    ensures '0' <= c <= '9' && c as int - '0' as int == d
  {
    (d + '0' as int) as char
  }

  predicate AllDigits(s: string) {
    forall k :: 0 <= k < |s| ==> '0' <= s[k] <= '9'
  }

  /** The decimal rendering of `n` with no sign and no leading zeros (Rust's `{}` for `usize`). */
  function NatToString(n: nat): (r: string)
    ensures |r| > 0 && AllDigits(r)
    ensures |r| > 1 ==> r[0] != '0'
    decreases n
  {
    if n < 10 then [DigitChar(n)]
    else NatToString(n / 10) + [DigitChar(n % 10)]
  }

  /** The value of a string of decimal digits. */
  function DigitsValue(s: string): nat
    requires AllDigits(s)
    decreases |s|
  {
    if |s| == 0 then 0
    else DigitsValue(s[..|s| - 1]) * 10 + (s[|s| - 1] as int - '0' as int)
  }

  /** A non-empty run of decimal digits, read as a natural number. */
  function ParseNat(s: string): (r: Option<nat>)
    ensures r.Some? <==> |s| > 0 && AllDigits(s)
  {
    if |s| > 0 && AllDigits(s) then Some(DigitsValue(s)) else None
  }

  lemma {:induction false} DigitsValueOfNat(n: nat)
    ensures DigitsValue(NatToString(n)) == n
    decreases n
  {
    if n >= 10 {
      DigitsValueOfNat(n / 10);
      var r := NatToString(n);
      assert r[..|r| - 1] == NatToString(n / 10);
    }
  }

  /** Reading back a rendered number gives the number. */
  lemma ParseNatRoundTrip(n: nat)
    ensures ParseNat(NatToString(n)) == Some(n)
  {
    DigitsValueOfNat(n);
  }

  function BoolText(b: bool): string {
    if b then "true" else "false"
  }

  function ParseBool(s: string): (r: Option<bool>)
    ensures r.Some? <==> s == "true" || s == "false"
  {
    if s == "true" then Some(true) else if s == "false" then Some(false) else None
  }

  lemma ParseBoolRoundTrip(b: bool)
    ensures ParseBool(BoolText(b)) == Some(b)
  {
  }
}
