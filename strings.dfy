/** The few JavaScript string and array builtins the style engine relies on:
    `Array.prototype.join`, `String.prototype.split` with a one-character
    separator, and the decimal text of a non-negative integer (`'-' + n`). */
module Strings {

  datatype Option<+T> = None | Some(value: T)

  predicate StartsWith(s: string, prefix: string) {
    |prefix| <= |s| && s[..|prefix|] == prefix
  }

  predicate EndsWith(s: string, suffix: string) {
    |suffix| <= |s| && s[|s| - |suffix|..] == suffix
  }

  /** `xs.join(sep)`: the elements separated by `sep`; the empty array gives "". */
  function Join(xs: seq<string>, sep: string): string
    decreases |xs|
  {
    if |xs| == 0 then ""
    else if |xs| == 1 then xs[0]
    else xs[0] + sep + Join(xs[1..], sep)
  }

  /** `s.split(c)`: the maximal runs between occurrences of `c`, in order.
      There is always at least one part, no part holds `c`, and joining the
      parts with `c` gives back `s`. */
  function Split(s: string, c: char): (parts: seq<string>)
    ensures |parts| >= 1
    ensures forall i :: 0 <= i < |parts| ==> c !in parts[i]
    ensures Join(parts, [c]) == s
  {
    if s == [] then [""]
    else
      var rest := Split(s[1..], c);
      if s[0] == c then
        assert ([""] + rest)[1..] == rest;
        [""] + rest
      else
        var parts := [[s[0]] + rest[0]] + rest[1..];
        assert parts[1..] == rest[1..];
        assert s == [s[0]] + s[1..];
        parts
  }

  lemma {:induction false} SplitWithoutSeparator(x: string, c: char)
    requires c !in x
    ensures Split(x, c) == [x]
  {
    if x != [] {
      SplitWithoutSeparator(x[1..], c);
      assert x == [x[0]] + x[1..];
    }
  }

  lemma {:induction false} SplitAfterPart(x: string, c: char, t: string)
    requires c !in x
    ensures Split(x + [c] + t, c) == [x] + Split(t, c)
  {
    var s := x + [c] + t;
    if x == [] {
      assert s[1..] == t;
    } else {
      assert s[1..] == x[1..] + [c] + t;
      SplitAfterPart(x[1..], c, t);
      assert x == [x[0]] + x[1..];
    }
  }

  /** Splitting on `c` undoes joining with `c`, provided no part contains `c`
      (together with the last ensures of Split this makes the two inverse). */
  lemma {:induction false} SplitOfJoin(xs: seq<string>, c: char)
    requires |xs| >= 1
    requires forall i :: 0 <= i < |xs| ==> c !in xs[i]
    ensures Split(Join(xs, [c]), c) == xs
  {
    if |xs| == 1 {
      SplitWithoutSeparator(xs[0], c);
    } else {
      SplitOfJoin(xs[1..], c);
      SplitAfterPart(xs[0], c, Join(xs[1..], [c]));
      assert xs == [xs[0]] + xs[1..];
    }
  }

  /** The concatenation of `f(x)` over `xs`, in order: what a loop that
      appends `f(x)` to an accumulator for each `x` leaves behind. */
  function ConcatMap<T>(xs: seq<T>, f: T -> string): string
  {
    if xs == [] then "" else f(xs[0]) + ConcatMap(xs[1..], f)
  }

  lemma {:induction false} ConcatMapAppend<T>(xs: seq<T>, ys: seq<T>, f: T -> string)
    ensures ConcatMap(xs + ys, f) == ConcatMap(xs, f) + ConcatMap(ys, f)
  {
    if xs == [] {
      assert xs + ys == ys;
    } else {
      assert (xs + ys)[1..] == xs[1..] + ys;
      ConcatMapAppend(xs[1..], ys, f);
    }
  }

  /** Appending one more element appends its text: the step of the loop. */
  lemma ConcatMapSnoc<T>(xs: seq<T>, x: T, f: T -> string)
    ensures ConcatMap(xs + [x], f) == ConcatMap(xs, f) + f(x)
  {
    ConcatMapAppend(xs, [x], f);
    assert [x][1..] == [];
  }

  /** The loop step with the text accumulated onto an existing prefix. */
  lemma ConcatMapAccumulate<T>(prefix: string, xs: seq<T>, x: T, f: T -> string)
    ensures prefix + ConcatMap(xs, f) + f(x) == prefix + ConcatMap(xs + [x], f)
  {
    ConcatMapSnoc(xs, x, f);
  }

  /** The concatenation is non-empty exactly when some element's text is. */
  lemma {:induction false} ConcatMapNonEmpty<T>(xs: seq<T>, f: T -> string)
    ensures ConcatMap(xs, f) != "" <==> exists i :: 0 <= i < |xs| && f(xs[i]) != ""
  {
    if xs != [] {
      ConcatMapNonEmpty(xs[1..], f);
      if exists i :: 0 <= i < |xs[1..]| && f(xs[1..][i]) != "" {
        var i :| 0 <= i < |xs[1..]| && f(xs[1..][i]) != "";
        assert xs[i + 1] == xs[1..][i];
      }
      if exists i :: 0 <= i < |xs| && f(xs[i]) != "" {
        var i :| 0 <= i < |xs| && f(xs[i]) != "";
        if i > 0 {
          assert xs[1..][i - 1] == xs[i];
        }
      }
    }
  }

  predicate IsDigit(ch: char) {
    '0' <= ch <= '9'
  }

  function DigitChar(d: nat): char
    requires d < 10
  {
    (48 + d) as char
  }

  /** The decimal text of `n`, without leading zeros. */
  function NatToString(n: nat): (r: string)
    ensures |r| >= 1
    ensures n < 10 <==> |r| == 1
    ensures forall i :: 0 <= i < |r| ==> IsDigit(r[i])
  {
    if n < 10 then [DigitChar(n)] else NatToString(n / 10) + [DigitChar(n % 10)]
  }

  lemma NatToStringHasNoDash(n: nat)
    ensures '-' !in NatToString(n)
  {
  }

  /** Different numbers have different decimal texts. */
  lemma {:induction false} NatToStringInjective(m: nat, n: nat)
    ensures NatToString(m) == NatToString(n) <==> m == n
  {
    if NatToString(m) == NatToString(n) && m >= 10 {
      var a, b := NatToString(m), NatToString(n);
      assert n >= 10;
      assert a[..|a| - 1] == NatToString(m / 10);
      assert b[..|b| - 1] == NatToString(n / 10);
      NatToStringInjective(m / 10, n / 10);
      assert DigitChar(m % 10) == a[|a| - 1] == b[|b| - 1] == DigitChar(n % 10);
    }
  }

  /** The text after the last `-` of `s` (all of `s` when it has none). */
  function AfterLastDash(s: string): string
  {
    if s == [] then ""
    else if s[|s| - 1] == '-' then ""
    else AfterLastDash(s[..|s| - 1]) + [s[|s| - 1]]
  }

  lemma {:induction false} AfterLastDashOf(x: string, d: string)
    requires '-' !in d
    ensures AfterLastDash(x + "-" + d) == d
  {
    var s := x + "-" + d;
    if d != [] {
      var d' := d[..|d| - 1];
      assert s[..|s| - 1] == x + "-" + d';
      AfterLastDashOf(x, d');
      assert d == d' + [d[|d| - 1]];
    }
  }
}
