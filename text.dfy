/**
 * The string operations of Rust's standard library that the task and problem
 * parsers rely on: `str::trim`, `str::split_once`, `str::split_terminator`
 * and `usize::from_str`.
 */
module Text {
  import opened Wrappers

  /** `char::is_whitespace`: the characters with the Unicode White_Space property. */
  predicate IsWhitespace(c: char) {
    c == ' ' || ('\t' <= c <= '\r') || c == '\U{85}' || c == '\U{A0}' || c == '\U{1680}'
    || ('\U{2000}' <= c <= '\U{200A}') || c == '\U{2028}' || c == '\U{2029}'
    || c == '\U{202F}' || c == '\U{205F}' || c == '\U{3000}'
  }

  predicate AllWhitespace(s: string) {
    forall k :: 0 <= k < |s| ==> IsWhitespace(s[k])
  }

  /** `str::trim_start`: drops the leading whitespace. */
  function TrimStart(s: string): (r: string)
    ensures |r| <= |s|
    decreases |s|
  {
    if |s| > 0 && IsWhitespace(s[0]) then TrimStart(s[1..]) else s
  }

  /** `str::trim_end`: drops the trailing whitespace. */
  function TrimEnd(s: string): (r: string)
    ensures |r| <= |s|
    decreases |s|
  {
    if |s| > 0 && IsWhitespace(s[|s| - 1]) then TrimEnd(s[..|s| - 1]) else s
  }

  /** `str::trim`: drops whitespace at both ends. */
  function Trim(s: string): (r: string)
    ensures |r| <= |s|
  {
    TrimEnd(TrimStart(s))
  }

  /** `trim_start` keeps a suffix, drops only whitespace, and stops at the first other character. */
  lemma {:induction false} TrimStartSpec(s: string)
    ensures TrimStart(s) == s[|s| - |TrimStart(s)|..]
    ensures AllWhitespace(s[..|s| - |TrimStart(s)|])
    ensures TrimStart(s) == [] || !IsWhitespace(TrimStart(s)[0])
    decreases |s|
  {
    if |s| > 0 && IsWhitespace(s[0]) {
      TrimStartSpec(s[1..]);
      var k := |s| - |TrimStart(s)|;
      assert s[1..][..k - 1] == s[1..k];
      assert forall t :: 0 < t < k ==> s[..k][t] == s[1..][..k - 1][t - 1];
    }
  }

  /** `trim_end` keeps a prefix, drops only whitespace, and stops at the last other character. */
  lemma {:induction false} TrimEndSpec(s: string)
    ensures TrimEnd(s) == s[..|TrimEnd(s)|]
    ensures AllWhitespace(s[|TrimEnd(s)|..])
    ensures TrimEnd(s) == [] || !IsWhitespace(TrimEnd(s)[|TrimEnd(s)| - 1])
    decreases |s|
  {
    if |s| > 0 && IsWhitespace(s[|s| - 1]) {
      var init := s[..|s| - 1];
      TrimEndSpec(init);
      var t := TrimEnd(init);
      assert TrimEnd(s) == t;
      assert init[..|t|] == s[..|t|];
      assert s[|t|..] == init[|t|..] + [s[|s| - 1]];
    }
  }

  /** What `trim` leaves neither starts nor ends with whitespace. */
  lemma TrimSpec(s: string)
    ensures Trim(s) == [] || (!IsWhitespace(Trim(s)[0]) && !IsWhitespace(Trim(s)[|Trim(s)| - 1]))
  {
    TrimStartSpec(s);
    TrimEndSpec(TrimStart(s));
  }

  lemma {:induction false} TrimStartOfPadded(w: string, m: string)
    requires AllWhitespace(w)
    requires m == [] || !IsWhitespace(m[0])
    ensures TrimStart(w + m) == m
    decreases |w|
  {
    if w != [] {
      assert (w + m)[1..] == w[1..] + m;
      TrimStartOfPadded(w[1..], m);
    }
  }

  lemma {:induction false} TrimEndOfPadded(m: string, w: string)
    requires AllWhitespace(w)
    requires m == [] || !IsWhitespace(m[|m| - 1])
    ensures TrimEnd(m + w) == m
    decreases |w|
  {
    if w != [] {
      assert (m + w)[..|m + w| - 1] == m + w[..|w| - 1];
      TrimEndOfPadded(m, w[..|w| - 1]);
    }
  }

  /**
   * `trim` removes exactly the surrounding whitespace: a text made of
   * whitespace, a core that neither starts nor ends with whitespace, and
   * whitespace again, trims to that core.
   */
  lemma TrimOfPadded(w1: string, m: string, w2: string)
    requires AllWhitespace(w1) && AllWhitespace(w2)
    requires m == [] || (!IsWhitespace(m[0]) && !IsWhitespace(m[|m| - 1]))
    ensures Trim(w1 + m + w2) == m
  {
    if m == [] {
      assert w1 + m + w2 == w1 + w2;
      assert AllWhitespace(w1 + w2);
      TrimStartOfPadded(w1 + w2, []);
      assert w1 + w2 + [] == w1 + w2;
    } else {
      assert w1 + m + w2 == w1 + (m + w2);
      TrimStartOfPadded(w1, m + w2);
      TrimEndOfPadded(m, w2);
    }
  }

  /** Trimming twice is trimming once. */
  lemma TrimIdempotent(s: string)
    ensures Trim(Trim(s)) == Trim(s)
  {
    var t := Trim(s);
    TrimSpec(s);
    assert [] + t + [] == t;
    TrimOfPadded([], t, []);
  }

  /** The position of the first occurrence of `c` in `s`, if any. */
  function IndexOf(s: string, c: char): (r: Option<nat>)
    ensures r.None? <==> c !in s
    ensures r.Some? ==> r.value < |s| && s[r.value] == c
    decreases |s|
  {
    if |s| == 0 then None
    else if s[0] == c then Some(0)
    else match IndexOf(s[1..], c)
      case None => None
      case Some(i) => Some(i + 1)
  }

  /** The position `IndexOf` finds is the first: no `c` comes before it. */
  lemma {:induction false} IndexOfFirst(s: string, c: char)
    requires IndexOf(s, c).Some?
    ensures c !in s[..IndexOf(s, c).value]
    decreases |s|
  {
    if s[0] != c {
      IndexOfFirst(s[1..], c);
      var i := IndexOf(s[1..], c).value;
      assert s[..i + 1] == [s[0]] + s[1..][..i];
    }
  }

  lemma {:induction false} IndexOfJoin(a: string, c: char, b: string)
    requires c !in a
    ensures IndexOf(a + [c] + b, c) == Some(|a|)
    decreases |a|
  {
    if a != [] {
      assert (a + [c] + b)[1..] == a[1..] + [c] + b;
      IndexOfJoin(a[1..], c, b);
    }
  }

  /** `str::split_once`: the text before and after the first `c`. */
  function SplitOnce(s: string, c: char): (r: Option<(string, string)>)
    ensures r.None? <==> c !in s
    ensures r.Some? ==> |r.value.0| < |s| && |r.value.1| < |s|
  {
    match IndexOf(s, c)
    case None => None
    case Some(i) => Some((s[..i], s[i + 1..]))
  }

  /** The two sides of `split_once`, joined back with `c`, give the text, and the left side holds no `c`. */
  lemma SplitOnceSpec(s: string, c: char)
    requires c in s
    ensures s == SplitOnce(s, c).value.0 + [c] + SplitOnce(s, c).value.1
    ensures c !in SplitOnce(s, c).value.0
  {
    var i := IndexOf(s, c).value;
    IndexOfFirst(s, c);
    assert s == s[..i] + [c] + s[i + 1..];
  }

  /** Splitting `a + c + b` where `a` holds no `c` gives back `a` and `b`, whatever `b` holds. */
  lemma SplitOnceJoin(a: string, c: char, b: string)
    requires c !in a
    ensures SplitOnce(a + [c] + b, c) == Some((a, b))
  {
    IndexOfJoin(a, c, b);
    var s := a + [c] + b;
    assert s[..|a|] == a;
    assert s[|a| + 1..] == b;
  }

  /** `str::split`: the pieces between occurrences of `c`; never empty. */
  function Split(s: string, c: char): (r: seq<string>)
    ensures |r| >= 1
    ensures forall k :: 0 <= k < |r| ==> c !in r[k]
    decreases |s|
  {
    match SplitOnce(s, c)
    case None => [s]
    case Some((a, b)) =>
      SplitOnceSpec(s, c);
      [a] + Split(b, c)
  }

  /** The pieces joined with `c` between them (the inverse of `Split`). */
  function JoinWith(ps: seq<string>, c: char): string
    requires |ps| >= 1
    decreases |ps|
  {
    if |ps| == 1 then ps[0] else ps[0] + [c] + JoinWith(ps[1..], c)
  }

  /** Joining the pieces of a split gives the text back. */
  lemma {:induction false} JoinSplit(s: string, c: char)
    ensures JoinWith(Split(s, c), c) == s
    decreases |s|
  {
    match SplitOnce(s, c)
    case None =>
    case Some((a, b)) =>
      SplitOnceSpec(s, c);
      JoinSplit(b, c);
      assert Split(s, c) == [a] + Split(b, c);
      assert Split(s, c)[1..] == Split(b, c);
  }

  /** Splitting pieces joined with `c`, none of which holds `c`, gives the pieces back. */
  lemma {:induction false} SplitJoin(ps: seq<string>, c: char)
    requires |ps| >= 1
    requires forall k :: 0 <= k < |ps| ==> c !in ps[k]
    ensures Split(JoinWith(ps, c), c) == ps
    decreases |ps|
  {
    if |ps| == 1 {
      assert SplitOnce(ps[0], c).None?;
    } else {
      SplitOnceJoin(ps[0], c, JoinWith(ps[1..], c));
      SplitJoin(ps[1..], c);
    }
  }

  /** `str::split_terminator`: like `split`, but a final empty piece is dropped. */
  function SplitTerminator(s: string, c: char): (r: seq<string>)
    ensures forall k :: 0 <= k < |r| ==> c !in r[k]
  {
    var parts := Split(s, c);
    if parts[|parts| - 1] == [] then parts[..|parts| - 1] else parts
  }

  /** The lines of a text, as `s.split_terminator('\n')` yields them. */
  function Lines(s: string): (r: seq<string>)
    ensures forall k :: 0 <= k < |r| ==> '\n' !in r[k]
  {
    SplitTerminator(s, '\n')
  }

  /** A text made of the given lines, each followed by a newline. */
  function Terminated(ls: seq<string>): string
    decreases |ls|
  {
    if ls == [] then [] else ls[0] + ['\n'] + Terminated(ls[1..])
  }

  /** Splitting `a + c + b`, where `a` holds no `c`, gives `a` and then the pieces of `b`. */
  lemma SplitCons(a: string, c: char, b: string)
    requires c !in a
    ensures Split(a + [c] + b, c) == [a] + Split(b, c)
  {
    SplitOnceJoin(a, c, b);
  }

  lemma {:induction false} SplitTerminated(ls: seq<string>)
    requires forall k :: 0 <= k < |ls| ==> '\n' !in ls[k]
    ensures Split(Terminated(ls), '\n') == ls + [[]]
    decreases |ls|
  {
    if ls == [] {
      assert SplitOnce([], '\n').None?;
    } else {
      var rest := ls[1..];
      assert Split(Terminated(ls), '\n') == [ls[0]] + Split(Terminated(rest), '\n') by {
        SplitCons(ls[0], '\n', Terminated(rest));
      }
      assert Split(Terminated(rest), '\n') == rest + [[]] by {
        SplitTerminated(rest);
      }
      assert ls + [[]] == [ls[0]] + (rest + [[]]);
    }
  }

  /** Reading back the lines of a newline-terminated text gives exactly those lines. */
  lemma LinesOfTerminated(ls: seq<string>)
    requires forall k :: 0 <= k < |ls| ==> '\n' !in ls[k]
    ensures Lines(Terminated(ls)) == ls
  {
    SplitTerminated(ls);
    assert (ls + [[]])[..|ls|] == ls;
  }

  /** `usize::MAX` on a 64-bit target. */
  const UsizeMax: nat := 0xFFFF_FFFF_FFFF_FFFF

  predicate IsDigit(c: char) {
    '0' <= c <= '9'
  }

  predicate AllDigits(s: string) {
    forall k :: 0 <= k < |s| ==> IsDigit(s[k])
  }

  /** The value of a string of decimal digits, most significant first. */
  function DigitsValue(d: string): nat
    requires AllDigits(d)
    decreases |d|
  {
    if d == [] then 0 else 10 * DigitsValue(d[..|d| - 1]) + (d[|d| - 1] as int - '0' as int)
  }

  /**
   * The first `k` digits of `usize::from_str`, read one after the other:
   * every character must be a decimal digit, and the value read so far is
   * checked against `usize::MAX` after each digit (its `checked_mul` and
   * `checked_add`). Errors are not told apart.
   */
  function ParseDigits(d: string, k: nat): (r: Option<nat>)
    requires k <= |d|
    ensures r.Some? ==> r.value <= UsizeMax
    decreases k
  {
    if k == 0 then Some(0)
    else
      match ParseDigits(d, k - 1)
      case None => None
      case Some(v) =>
        var c := d[k - 1];
        if !IsDigit(c) then None
        else if 10 * v + (c as int - '0' as int) > UsizeMax then None
        else Some(10 * v + (c as int - '0' as int))
  }

  /** `usize::from_str`: an optional `+`, then at least one decimal digit. */
  function ParseUsize(s: string): (r: Option<nat>)
    ensures r.Some? ==> r.value <= UsizeMax
  {
    var digits := if |s| > 0 && s[0] == '+' then s[1..] else s;
    if |digits| == 0 then None else ParseDigits(digits, |digits|)
  }

  /**
   * Checking for overflow after every digit accepts exactly the digit
   * strings whose whole value fits: `ParseDigits` is `DigitsValue` when that
   * is at most `usize::MAX`.
   */
  lemma {:induction false} ParseDigitsValue(d: string, k: nat)
    requires k <= |d|
    ensures ParseDigits(d, k) == if AllDigits(d[..k]) && DigitsValue(d[..k]) <= UsizeMax then Some(DigitsValue(d[..k])) else None
    decreases k
  {
    if k > 0 {
      var p := d[..k - 1];
      ParseDigitsValue(d, k - 1);
      assert d[..k][..k - 1] == p;
      if AllDigits(d[..k]) {
        assert AllDigits(p);
      }
    }
  }

  /** What `usize::from_str` accepts, and the value it gives. */
  lemma ParseUsizeValue(s: string)
    ensures var digits := if |s| > 0 && s[0] == '+' then s[1..] else s;
      ParseUsize(s) == if |digits| > 0 && AllDigits(digits) && DigitsValue(digits) <= UsizeMax
                       then Some(DigitsValue(digits)) else None
  {
    var digits := if |s| > 0 && s[0] == '+' then s[1..] else s;
    ParseDigitsValue(digits, |digits|);
    assert digits[..|digits|] == digits;
  }

  /** The decimal rendering of `n`, without sign or leading zeros. */
  function Decimal(n: nat): (r: string)
    ensures |r| >= 1 && AllDigits(r)
    decreases n
  {
    var digit := ('0' as int + n % 10) as char;
    if n < 10 then [digit] else Decimal(n / 10) + [digit]
  }

  lemma {:induction false} DecimalValue(n: nat)
    ensures DigitsValue(Decimal(n)) == n
    decreases n
  {
    if n >= 10 {
      DecimalValue(n / 10);
      var d := Decimal(n);
      assert d[..|d| - 1] == Decimal(n / 10);
    }
  }

  /** Every count that fits in a `usize`, written in decimal, parses back to itself. */
  lemma ParseUsizeDecimal(n: nat)
    requires n <= UsizeMax
    ensures ParseUsize(Decimal(n)) == Some(n)
  {
    DecimalValue(n);
    ParseUsizeValue(Decimal(n));
  }
}
