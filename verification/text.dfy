/** The handful of Python string operations the pipeline relies on:
    `str.strip()`, `str.split()`, `sep.join(...)`, `str(n)` and zero-padded
    integer formatting. Strings are sequences of Unicode scalar values, as
    Python 3 strings are sequences of code points. */
module Text {

  /** Python's `str.isspace` set, which is also what `strip()` and `split()`
      (without arguments) treat as whitespace. */
  predicate IsSpace(c: char) {
    var n := c as int;
    || (9 <= n <= 13)
    || (28 <= n <= 32)
    || n == 0x85 || n == 0xA0 || n == 0x1680
    || (0x2000 <= n <= 0x200A)
    || n == 0x2028 || n == 0x2029 || n == 0x202F || n == 0x205F || n == 0x3000
  }

  /** Empty or whitespace only: what Python calls a falsy `s.strip()`. */
  predicate Blank(s: string) {
    forall k :: 0 <= k < |s| ==> IsSpace(s[k])
  }

  predicate IsStripped(s: string) {
    s == [] || (!IsSpace(s[0]) && !IsSpace(s[|s| - 1]))
  }

  function LeadingSpaces(s: string): (n: nat)
    ensures n <= |s|
    ensures Blank(s[..n])
    ensures n == |s| || !IsSpace(s[n])
  {
    if s != [] && IsSpace(s[0]) then 1 + LeadingSpaces(s[1..]) else 0
  }

  function TrailingSpaces(s: string): (n: nat)
    ensures n <= |s|
    ensures Blank(s[|s| - n..])
    ensures n == |s| || !IsSpace(s[|s| - 1 - n])
  {
    if s != [] && IsSpace(s[|s| - 1]) then 1 + TrailingSpaces(s[..|s| - 1]) else 0
  }

  /** Python's `s.strip()`. */
  function Strip(s: string): (r: string)
    ensures IsStripped(r)
    ensures r == [] <==> Blank(s)
    ensures !Blank(s) ==> LeadingSpaces(s) < |s| - TrailingSpaces(s)
    ensures !Blank(s) ==> r == s[LeadingSpaces(s)..|s| - TrailingSpaces(s)]
  {
    var a := LeadingSpaces(s);
    if a == |s| then [] else s[a..|s| - TrailingSpaces(s)]
  }

  lemma StripStripped(s: string)
    requires IsStripped(s)
    ensures Strip(s) == s
  {
    if s != [] {
      assert LeadingSpaces(s) == 0;
      assert TrailingSpaces(s) == 0;
    }
  }

  lemma StripIdempotent(s: string)
    ensures Strip(Strip(s)) == Strip(s)
  {
    StripStripped(Strip(s));
  }

  /** Length of the run of non-space characters that starts `s`. */
  function WordLen(s: string): (n: nat)
    ensures n <= |s|
    ensures forall k :: 0 <= k < n ==> !IsSpace(s[k])
    ensures n == |s| || IsSpace(s[n])
  {
    if s != [] && !IsSpace(s[0]) then 1 + WordLen(s[1..]) else 0
  }

  predicate IsWord(w: string) {
    w != [] && forall k :: 0 <= k < |w| ==> !IsSpace(w[k])
  }

  /** Python's `s.split()`: the maximal runs of non-space characters. */
  function Split(s: string): (ws: seq<string>)
    ensures forall k :: 0 <= k < |ws| ==> IsWord(ws[k])
    decreases |s|
  {
    if s == [] then []
    else if IsSpace(s[0]) then Split(s[1..])
    else var n := WordLen(s); [s[..n]] + Split(s[n..])
  }

  /** Python's `sep.join(xs)`. */
  function Join(sep: string, xs: seq<string>): string {
    if xs == [] then []
    else if |xs| == 1 then xs[0]
    else xs[0] + sep + Join(sep, xs[1..])
  }

  lemma {:induction false} JoinSnoc(sep: string, xs: seq<string>, x: string)
    requires xs != []
    ensures Join(sep, xs + [x]) == Join(sep, xs) + sep + x
    decreases |xs|
  {
    if |xs| == 1 {
      assert xs + [x] == [xs[0], x];
      assert Join(sep, [x]) == x;
    } else {
      assert (xs + [x])[1..] == xs[1..] + [x];
      JoinSnoc(sep, xs[1..], x);
    }
  }

  lemma JoinHead(sep: string, xs: seq<string>)
    requires xs != [] && xs[0] != []
    ensures Join(sep, xs) != [] && Join(sep, xs)[0] == xs[0][0]
  {
  }

  lemma {:induction false} TrailingBlank(t: string, w: string)
    requires t != [] && !IsSpace(t[|t| - 1]) && Blank(w)
    ensures TrailingSpaces(t + w) == |w|
    decreases |w|
  {
    if w == [] {
      assert t + w == t;
    } else {
      var u := w[..|w| - 1];
      assert (t + w)[..|t + w| - 1] == t + u;
      TrailingBlank(t, u);
    }
  }

  /** A stripped text followed by whitespace strips back to itself. */
  lemma StripTrailingBlank(t: string, w: string)
    requires t != [] && IsStripped(t) && Blank(w)
    ensures Strip(t + w) == t
  {
    TrailingBlank(t, w);
    assert LeadingSpaces(t + w) == 0;
    assert (t + w)[..|t|] == t;
  }

  /** All the words of a list of strings, in order. */
  function Words(xs: seq<string>): seq<string> {
    if xs == [] then [] else Split(xs[0]) + Words(xs[1..])
  }

  lemma WordsAppend(xs: seq<string>, ys: seq<string>)
    ensures Words(xs + ys) == Words(xs) + Words(ys)
  {
    if xs != [] {
      assert (xs + ys)[0] == xs[0];
      assert (xs + ys)[1..] == xs[1..] + ys;
      WordsAppend(xs[1..], ys);
    } else {
      assert xs + ys == ys;
    }
  }

  lemma WordLenIs(s: string, n: nat)
    requires n <= |s|
    requires forall k :: 0 <= k < n ==> !IsSpace(s[k])
    requires n == |s| || IsSpace(s[n])
    ensures WordLen(s) == n
  {
    if n > 0 {
      WordLenIs(s[1..], n - 1);
    }
  }

  /** A whitespace character always separates words. */
  lemma {:induction false} SplitAround(a: string, c: char, b: string)
    requires IsSpace(c)
    ensures Split(a + [c] + b) == Split(a) + Split(b)
    decreases |a|
  {
    var s := a + [c] + b;
    if a == [] {
      assert s[1..] == b;
    } else if IsSpace(a[0]) {
      assert s[1..] == a[1..] + [c] + b;
      SplitAround(a[1..], c, b);
    } else {
      var n := WordLen(a);
      WordLenIs(s, n);
      assert s[..n] == a[..n];
      assert s[n..] == a[n..] + [c] + b;
      SplitAround(a[n..], c, b);
    }
  }

  lemma SplitDropLeading(s: string, k: nat)
    requires k <= |s| && Blank(s[..k])
    ensures Split(s[k..]) == Split(s)
  {
    if k > 0 {
      assert IsSpace(s[..k][0]);
      assert s[1..][..k - 1] == s[1..k];
      SplitDropLeading(s[1..], k - 1);
      assert s[1..][k - 1..] == s[k..];
    }
  }

  lemma SplitDropLast(s: string)
    requires s != [] && IsSpace(s[|s| - 1])
    ensures Split(s[..|s| - 1]) == Split(s)
  {
    var t := s[..|s| - 1];
    SplitAround(t, s[|s| - 1], []);
    assert t + [s[|s| - 1]] + [] == s;
  }

  lemma {:induction false} SplitDropTrailing(s: string, k: nat)
    requires k <= |s| && Blank(s[k..])
    ensures Split(s[..k]) == Split(s)
    decreases |s| - k
  {
    if k < |s| {
      var t := s[..|s| - 1];
      assert s[k..][|s| - 1 - k] == s[|s| - 1];
      SplitDropLast(s);
      assert t[k..] == s[k..][..|s| - 1 - k];
      SplitDropTrailing(t, k);
      assert t[..k] == s[..k];
    } else {
      assert s[..k] == s;
    }
  }

  /** Stripping never changes the words of a string. */
  lemma SplitStrip(s: string)
    ensures Split(Strip(s)) == Split(s)
  {
    if Blank(s) {
      SplitBlank(s);
    } else {
      SplitTrimmed(s, LeadingSpaces(s), |s| - TrailingSpaces(s));
    }
  }

  lemma SplitBlank(s: string)
    requires Blank(s)
    ensures Split(s) == []
  {
    assert s[..|s|] == s;
    SplitDropLeading(s, |s|);
    assert s[|s|..] == [];
  }

  /** Cutting whitespace off both ends keeps the words. */
  lemma SplitTrimmed(s: string, a: nat, e: nat)
    requires a <= e <= |s| && Blank(s[..a]) && Blank(s[e..])
    ensures Split(s[a..e]) == Split(s)
  {
    var t := s[a..];
    assert t[e - a..] == s[e..];
    assert t[..e - a] == s[a..e];
    SplitDropLeading(s, a);
    SplitDropTrailing(t, e - a);
    SplitEqual(t[..e - a], s[a..e]);
  }

  lemma SplitEqual(x: string, y: string)
    requires x == y
    ensures Split(x) == Split(y)
  {
  }

  lemma SplitWord(w: string)
    requires IsWord(w)
    ensures Split(w) == [w]
  {
    WordLenIs(w, |w|);
    assert w[..|w|] == w;
  }

  /** Joining words with single spaces and splitting again gives the words back. */
  lemma {:induction false} SplitJoinWords(ws: seq<string>)
    requires forall k :: 0 <= k < |ws| ==> IsWord(ws[k])
    ensures Split(Join(" ", ws)) == ws
  {
    if |ws| == 1 {
      SplitWord(ws[0]);
    } else if |ws| > 1 {
      SplitAround(ws[0], ' ', Join(" ", ws[1..]));
      assert ws[0] + " " + Join(" ", ws[1..]) == ws[0] + [' '] + Join(" ", ws[1..]);
      SplitWord(ws[0]);
      SplitJoinWords(ws[1..]);
    }
  }

  /** Joining with single spaces neither creates nor loses words. */
  lemma {:induction false} SplitJoin(xs: seq<string>)
    ensures Split(Join(" ", xs)) == Words(xs)
  {
    if |xs| == 1 {
      assert Words(xs) == Split(xs[0]) + Words([]);
    } else if |xs| > 1 {
      SplitAround(xs[0], ' ', Join(" ", xs[1..]));
      assert xs[0] + " " + Join(" ", xs[1..]) == xs[0] + [' '] + Join(" ", xs[1..]);
      SplitJoin(xs[1..]);
    }
  }

  function StripAll(xs: seq<string>): (ys: seq<string>)
    ensures |ys| == |xs|
    ensures forall k :: 0 <= k < |xs| ==> ys[k] == Strip(xs[k])
  {
    seq(|xs|, k requires 0 <= k < |xs| => Strip(xs[k]))
  }

  lemma {:induction false} WordsStripAll(xs: seq<string>)
    ensures Words(StripAll(xs)) == Words(xs)
  {
    if xs != [] {
      WordsStripAll(xs[1..]);
      SplitStrip(xs[0]);
      assert StripAll(xs)[1..] == StripAll(xs[1..]);
    }
  }

  predicate IsDigit(c: char) {
    '0' as int <= c as int <= '9' as int
  }

  function DigitChar(d: int): (c: char)
    requires 0 <= d < 10
    ensures IsDigit(c)
  {
    ('0' as int + d) as char
  }

  /** Python's `str(n)` for a non-negative integer. */
  function NatToString(n: nat): (s: string)
    ensures |s| >= 1
    ensures forall k :: 0 <= k < |s| ==> IsDigit(s[k])
  {
    if n < 10 then [DigitChar(n)] else NatToString(n / 10) + [DigitChar(n % 10)]
  }

  /** The value of a string read as decimal digits (meaningful when every
      character is a digit). */
  function DigitsValue(s: string): int {
    if s == [] then 0
    else DigitsValue(s[..|s| - 1]) * 10 + (s[|s| - 1] as int - '0' as int)
  }

  lemma {:induction false} NatToStringValue(n: nat)
    ensures DigitsValue(NatToString(n)) == n
  {
    if n >= 10 {
      var s := NatToString(n);
      assert s[..|s| - 1] == NatToString(n / 10);
      NatToStringValue(n / 10);
    }
  }

  function Zeros(k: nat): (s: string)
    ensures |s| == k
    ensures forall i :: 0 <= i < k ==> s[i] == '0'
  {
    if k == 0 then [] else Zeros(k - 1) + ['0']
  }

  /** Python's `f"{n:0w}"` for a non-negative `n`: digits, left-padded with zeros to width `w`. */
  function ZeroPad(n: nat, w: nat): (s: string)
    ensures |s| == if |NatToString(n)| >= w then |NatToString(n)| else w
    ensures forall k :: 0 <= k < |s| ==> IsDigit(s[k])
  {
    var d := NatToString(n);
    if |d| >= w then d else Zeros(w - |d|) + d
  }

  lemma {:induction false} LeadingZerosValue(z: nat, d: string)
    requires forall k :: 0 <= k < |d| ==> IsDigit(d[k])
    ensures forall k :: 0 <= k < |Zeros(z) + d| ==> IsDigit((Zeros(z) + d)[k])
    ensures DigitsValue(Zeros(z) + d) == DigitsValue(d)
    decreases |d|
  {
    var s := Zeros(z) + d;
    if d == [] {
      assert s == Zeros(z);
      ZerosValue(z);
    } else {
      assert s[..|s| - 1] == Zeros(z) + d[..|d| - 1];
      LeadingZerosValue(z, d[..|d| - 1]);
    }
  }

  lemma {:induction false} ZerosValue(z: nat)
    ensures DigitsValue(Zeros(z)) == 0
  {
    if z > 0 {
      assert Zeros(z)[..z - 1] == Zeros(z - 1);
      ZerosValue(z - 1);
    }
  }

  lemma ZeroPadValue(n: nat, w: nat)
    ensures DigitsValue(ZeroPad(n, w)) == n
  {
    NatToStringValue(n);
    var d := NatToString(n);
    if |d| < w {
      LeadingZerosValue(w - |d|, d);
    }
  }

  /** Python's `f"{n:0w}"` for any integer: a minus sign counts toward the width. */
  function FormatPadded(n: int, w: nat): string {
    if n >= 0 then ZeroPad(n, w)
    else "-" + ZeroPad(-n, if w >= 1 then w - 1 else 0)
  }
}
