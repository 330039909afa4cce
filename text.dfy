/**
 * The few pieces of Python's string behaviour the music model relies on:
 * `str.split` with an explicit separator, `str.join`, `str(int)`, `int(str)`,
 * slicing with negative bounds, `str.strip` and zero padding.
 */
module Text {
  import opened Wrappers

  // ---------------------------------------------------------------- split / join

  /** `s.split(sep)` for a non-empty separator: cut at every occurrence of `sep`,
      scanning left to right without overlaps. */
  function Split(s: string, sep: string): (parts: seq<string>)
    requires sep != []
    ensures |parts| >= 1
    decreases |s|
  {
    if |s| < |sep| then [s]
    else if s[..|sep|] == sep then [""] + Split(s[|sep|..], sep)
    else
      var rest := Split(s[1..], sep);
      [[s[0]] + rest[0]] + rest[1..]
  }

  /** `sep.join(parts)`. */
  function Join(sep: string, parts: seq<string>): string
  {
    if |parts| == 0 then ""
    else if |parts| == 1 then parts[0]
    else parts[0] + sep + Join(sep, parts[1..])
  }

  lemma JoinCons(sep: string, c: char, x: string, t: seq<string>)
    ensures Join(sep, [[c] + x] + t) == [c] + Join(sep, [x] + t)
  {
    if |t| > 0 {
      assert ([[c] + x] + t)[1..] == t;
      assert ([x] + t)[1..] == t;
    }
  }

  lemma JoinLeadingEmpty(sep: string, t: seq<string>)
    requires |t| >= 1
    ensures Join(sep, [""] + t) == sep + Join(sep, t)
  {
    assert ([""] + t)[1..] == t;
    assert "" + sep == sep;
  }

  /** Joining the pieces of a split gives back the string: the two are inverse in this direction for every input. */
  lemma {:induction false} JoinSplit(s: string, sep: string)
    requires sep != []
    ensures Join(sep, Split(s, sep)) == s
    decreases |s|
  {
    if |s| < |sep| {
    } else if s[..|sep|] == sep {
      JoinSplit(s[|sep|..], sep);
      JoinLeadingEmpty(sep, Split(s[|sep|..], sep));
      assert s == sep + s[|sep|..];
    } else {
      var rest := Split(s[1..], sep);
      JoinSplit(s[1..], sep);
      JoinCons(sep, s[0], rest[0], rest[1..]);
      assert [rest[0]] + rest[1..] == rest;
      assert s == [s[0]] + s[1..];
    }
  }

  /** No cut can start inside a prefix free of the separator's first character. */
  lemma {:induction false} SplitPlainPrefix(a: string, b: string, sep: string)
    requires sep != [] && sep[0] !in a
    ensures Split(a + b, sep) == [a + Split(b, sep)[0]] + Split(b, sep)[1..]
    decreases |a|
  {
    if a == [] {
      assert a + b == b;
      assert a + Split(b, sep)[0] == Split(b, sep)[0];
      assert [Split(b, sep)[0]] + Split(b, sep)[1..] == Split(b, sep);
    } else if |a + b| < |sep| {
    } else {
      var s := a + b;
      assert s[0] == a[0];
      assert s[..|sep|] != sep;
      assert s[1..] == a[1..] + b;
      SplitPlainPrefix(a[1..], b, sep);
      assert [s[0]] + (a[1..] + Split(b, sep)[0]) == a + Split(b, sep)[0];
    }
  }

  /** A string that starts with the separator is cut right away. */
  lemma SplitLeadingSep(b: string, sep: string)
    requires sep != []
    ensures Split(sep + b, sep) == [""] + Split(b, sep)
  {
    var s := sep + b;
    assert s[..|sep|] == sep;
    assert s[|sep|..] == b;
  }

  /** A string lacking the separator's last character is not cut at all. */
  lemma {:induction false} SplitUncut(s: string, sep: string)
    requires sep != [] && sep[|sep| - 1] !in s
    ensures Split(s, sep) == [s]
    decreases |s|
  {
    if |s| >= |sep| {
      assert s[..|sep|][|sep| - 1] == s[|sep| - 1];
      assert s[..|sep|] != sep;
      SplitUncut(s[1..], sep);
      assert [s[0]] + s[1..] == s;
    }
  }

  /** A character in neither the separator nor any part is not in their join. */
  lemma {:induction false} JoinNoChar(sep: string, parts: seq<string>, c: char)
    requires c !in sep && forall i :: 0 <= i < |parts| ==> c !in parts[i]
    ensures c !in Join(sep, parts)
  {
    if |parts| > 1 {
      JoinNoChar(sep, parts[1..], c);
    }
  }

  /** Two pieces free of a one-character separator, joined by it, split back into them. */
  lemma SplitTwoLines(f: string, s: string, nl: string)
    requires |nl| == 1 && nl[0] !in f && nl[0] !in s
    ensures Split(f + nl + s, nl) == [f, s]
  {
    SplitUncut(s, nl);
    SplitLeadingSep(s, nl);
    SplitPlainPrefix(f, nl + s, nl);
    var x := Split(nl + s, nl);
    assert f + x[0] == f;
    assert f + (nl + s) == f + nl + s;
  }

  /** A piece free of a one-character separator, followed by two more each led by it, splits back into the three. */
  lemma SplitLedLines(last: string, f: string, s: string, nl: string)
    requires |nl| == 1 && nl[0] !in last && nl[0] !in f && nl[0] !in s
    ensures Split(last + (nl + f + nl + s), nl) == [last, f, s]
  {
    var rest := f + nl + s;
    SplitTwoLines(f, s, nl);
    SplitLeadingSep(rest, nl);
    SplitPlainPrefix(last, nl + rest, nl);
    assert last + "" == last;
    assert nl + rest == nl + f + nl + s;
  }

  /** The second and fourth pieces of a five-piece concatenation, recovered by slicing. */
  lemma FrameSlices(p: string, x: string, q: string, y: string, z: string)
    ensures var m := p + x + q + y + z;
      && m[|p|..|p| + |x|] == x
      && m[|p| + |x| + |q|..|p| + |x| + |q| + |y|] == y
  {
    var m := p + x + q + y + z;
    assert m == p + (x + (q + (y + z)));
    assert (x + (q + (y + z)))[..|x|] == x;
    assert (q + (y + z))[|q|..|q| + |y|] == y;
  }

  /** Three pieces free of a one-character separator, joined by it, split back into them. */
  lemma SplitThreeLines(last: string, f: string, s: string, nl: string)
    requires |nl| == 1 && nl[0] !in last && nl[0] !in f && nl[0] !in s
    ensures Split(last + nl + f + nl + s, nl) == [last, f, s]
  {
    var rest := f + nl + s;
    SplitTwoLines(f, s, nl);
    SplitLeadingSep(rest, nl);
    SplitPlainPrefix(last, nl + rest, nl);
    var y := Split(nl + rest, nl);
    assert y == ["", f, s];
    assert last + y[0] == last;
    assert last + (nl + rest) == last + nl + f + nl + s;
  }

  /** A two-character separator with distinct characters, followed by a text lacking its second
      character, is always the last cut: the text after it is the last piece. */
  lemma {:induction false} SplitLastIs(a: string, r: string, sep: string)
    requires |sep| == 2 && sep[0] != sep[1] && sep[1] !in r
    ensures |Split(a + (sep + r), sep)| >= 2
    ensures Split(a + (sep + r), sep)[|Split(a + (sep + r), sep)| - 1] == r
    decreases |a|
  {
    var s := a + (sep + r);
    if a == [] {
      assert s == sep + r;
      SplitLeadingSep(r, sep);
      SplitUncut(r, sep);
    } else if |a| >= 2 && a[..2] == sep {
      assert s[..2] == sep;
      assert s[2..] == a[2..] + (sep + r);
      SplitLastIs(a[2..], r, sep);
    } else {
      NoSepInFront(a, sep + r, sep);
      SplitLastIs(a[1..], r, sep);
    }
  }

  lemma NoSepInFront(a: string, b: string, sep: string)
    requires |sep| == 2 && sep[0] != sep[1] && |b| >= 1 && b[0] == sep[0]
    requires a != [] && !(|a| >= 2 && a[..2] == sep)
    ensures |a + b| >= 2 && (a + b)[..2] != sep && (a + b)[1..] == a[1..] + b
  {
    var s := a + b;
    if |a| == 1 {
      assert s[1] == sep[0];
    } else {
      assert s[..2] == a[..2];
    }
  }

  lemma ConsInit(parts: seq<string>, x: string, r: seq<string>)
    requires |parts| >= 2
    ensures [parts[0]] + (parts[1..][..|parts| - 2] + [x] + r) == parts[..|parts| - 1] + [x] + r
  {
    assert parts[..|parts| - 1] == [parts[0]] + parts[1..][..|parts| - 2];
  }

  /** Splitting `Join(sep, parts) + tail` recovers every part; the last part absorbs the first piece of `tail`. */
  lemma {:induction false} SplitJoinTail(parts: seq<string>, tail: string, sep: string)
    requires sep != [] && |parts| >= 1
    requires forall i :: 0 <= i < |parts| ==> sep[0] !in parts[i]
    ensures Split(Join(sep, parts) + tail, sep)
         == parts[..|parts| - 1] + [parts[|parts| - 1] + Split(tail, sep)[0]] + Split(tail, sep)[1..]
    decreases |parts|
  {
    var t := Split(tail, sep);
    if |parts| == 1 {
      SplitPlainPrefix(parts[0], tail, sep);
    } else {
      var rest := parts[1..];
      var j := Join(sep, rest) + tail;
      assert Join(sep, parts) + tail == parts[0] + (sep + j);
      SplitAtFirstSep(parts[0], j, sep);
      SplitJoinTail(rest, tail, sep);
      ConsInit(parts, rest[|rest| - 1] + t[0], t[1..]);
    }
  }

  lemma SplitAtFirstSep(a: string, j: string, sep: string)
    requires sep != [] && sep[0] !in a
    ensures Split(a + (sep + j), sep) == [a] + Split(j, sep)
  {
    SplitPlainPrefix(a, sep + j, sep);
    SplitLeadingSep(j, sep);
    var x := Split(sep + j, sep);
    assert a + x[0] == a;
    assert x[1..] == Split(j, sep);
  }

  /** Splitting a join gives back the parts when no part holds the separator's first character. */
  lemma SplitJoin(parts: seq<string>, sep: string)
    requires sep != [] && |parts| >= 1
    requires forall i :: 0 <= i < |parts| ==> sep[0] !in parts[i]
    ensures Split(Join(sep, parts), sep) == parts
  {
    SplitJoinTail(parts, "", sep);
    var j := Join(sep, parts);
    assert j + "" == j;
    var e := Split("", sep);
    assert e == [""];
    var last := parts[|parts| - 1];
    assert last + e[0] == last;
    assert e[1..] == [];
    assert parts[..|parts| - 1] + [last] == parts;
  }

  // ---------------------------------------------------------------- decimal digits

  predicate IsDigit(c: char) { '0' <= c <= '9' }

  function DigitChar(d: nat): (c: char)
    requires d < 10
    ensures IsDigit(c) && c as int - '0' as int == d
  {
    ('0' as int + d) as char
  }

  predicate AllDigits(s: string) { forall i :: 0 <= i < |s| ==> IsDigit(s[i]) }

  /** `str(n)` for a natural number: its decimal digits, most significant first, without leading zeros. */
  function NatToString(n: nat): (s: string)
    ensures |s| >= 1 && AllDigits(s)
    decreases n
  {
    if n < 10 then [DigitChar(n)] else NatToString(n / 10) + [DigitChar(n % 10)]
  }

  /** `str(i)` for any integer. */
  function IntToString(i: int): string
  {
    if i < 0 then "-" + NatToString(-i) else NatToString(i)
  }

  /** The number a string of decimal digits denotes. */
  function DigitsValue(s: string): nat
    requires AllDigits(s)
  {
    if s == [] then 0 else DigitsValue(s[..|s| - 1]) * 10 + (s[|s| - 1] as int - '0' as int)
  }

  lemma {:induction false} DigitsValueOfNatToString(n: nat)
    ensures DigitsValue(NatToString(n)) == n
    decreases n
  {
    if n >= 10 {
      var s := NatToString(n);
      assert s[..|s| - 1] == NatToString(n / 10);
      DigitsValueOfNatToString(n / 10);
    }
  }

  function Pow10(k: nat): nat { if k == 0 then 1 else 10 * Pow10(k - 1) }

  /** `str(n)` has exactly `k` characters when `n` has `k` decimal digits. */
  lemma {:induction false} NatToStringLength(n: nat, k: nat)
    requires k >= 1 && (k == 1 || Pow10(k - 1) <= n) && n < Pow10(k)
    ensures |NatToString(n)| == k
    decreases k
  {
    if k > 1 {
      assert n >= 10 by { PowAtLeastTen(k - 1); }
      NatToStringLength(n / 10, k - 1);
    } else {
      assert n < 10;
    }
  }

  lemma {:induction false} PowAtLeastTen(k: nat)
    requires k >= 1
    ensures Pow10(k) >= 10
  {
    if k > 1 { PowAtLeastTen(k - 1); }
  }

  // ---------------------------------------------------------------- int(str)

  /** The ASCII characters Python's `str.strip()` and `int()` treat as whitespace. */
  predicate IsSpace(c: char)
  {
    c == ' ' || c == '\t' || c == '\n' || c == '\r' || c == '\U{0B}' || c == '\U{0C}'
    || ('\U{1C}' <= c <= '\U{1F}')
  }

  function StripLeft(s: string): (r: string)
    ensures |r| <= |s| && r == s[|s| - |r|..] && (r != [] ==> !IsSpace(r[0]))
  {
    if s != [] && IsSpace(s[0]) then StripLeft(s[1..]) else s
  }

  function StripRight(s: string): (r: string)
    ensures |r| <= |s| && r == s[..|r|] && (r != [] ==> !IsSpace(r[|r| - 1]))
  {
    if s != [] && IsSpace(s[|s| - 1]) then StripRight(s[..|s| - 1]) else s
  }

  /** `s.strip()`: no whitespace at either end. */
  function Strip(s: string): (r: string)
    ensures r != [] ==> !IsSpace(r[0]) && !IsSpace(r[|r| - 1])
  {
    StripRight(StripLeft(s))
  }

  lemma StripNoSpace(s: string)
    requires forall i :: 0 <= i < |s| ==> !IsSpace(s[i])
    ensures Strip(s) == s
  {
  }

  /** Digits in which single underscores may separate digits, as Python's integer literals allow. */
  predicate WellFormedDigits(u: string)
  {
    && |u| > 0 && IsDigit(u[0]) && IsDigit(u[|u| - 1])
    && forall i :: 0 <= i < |u| ==>
         IsDigit(u[i]) || (u[i] == '_' && 0 < i < |u| - 1 && IsDigit(u[i - 1]) && IsDigit(u[i + 1]))
  }

  function DigitsOnly(u: string): (d: string)
    ensures AllDigits(d)
  {
    if u == [] then [] else (if IsDigit(u[0]) then [u[0]] else []) + DigitsOnly(u[1..])
  }

  lemma {:induction false} DigitsOnlyOfDigits(u: string)
    requires AllDigits(u)
    ensures DigitsOnly(u) == u
  {
    if u != [] { DigitsOnlyOfDigits(u[1..]); }
  }

  /** `int(s)` with base 10: `None` where Python raises `ValueError`. */
  function PyInt(s: string): (r: Option<int>)
  {
    SignedDigits(Strip(s))
  }

  /** The sign-and-digits part of `int()`, once the surrounding whitespace is gone. */
  function SignedDigits(t: string): (r: Option<int>)
  {
    if t != [] && (t[0] == '+' || t[0] == '-') then
      if WellFormedDigits(t[1..]) then
        var m: int := DigitsValue(DigitsOnly(t[1..]));
        Some(if t[0] == '-' then -m else m)
      else None
    else if WellFormedDigits(t) then Some(DigitsValue(DigitsOnly(t)))
    else None
  }

  lemma StripOfDigits(s: string)
    requires AllDigits(s)
    ensures Strip(s) == s
  {
    forall i | 0 <= i < |s| ensures !IsSpace(s[i]) { assert IsDigit(s[i]); }
    StripNoSpace(s);
  }

  lemma WellFormedOfDigits(s: string)
    requires s != [] && AllDigits(s)
    ensures WellFormedDigits(s)
  {
  }

  /** `int(s)` of a non-empty string of plain decimal digits is the number they denote. */
  lemma PyIntOfDigits(s: string)
    requires s != [] && AllDigits(s)
    ensures PyInt(s) == Some(DigitsValue(s))
  {
    StripOfDigits(s);
    UnsignedDigits(s);
    assert PyInt(s) == SignedDigits(s);
  }

  lemma UnsignedDigits(s: string)
    requires s != [] && AllDigits(s)
    ensures SignedDigits(s) == Some(DigitsValue(s))
  {
    assert IsDigit(s[0]);
    WellFormedOfDigits(s);
    DigitsOnlyOfDigits(s);
  }

  /** `int(str(n)) == n`. */
  lemma PyIntOfNatToString(n: nat)
    ensures PyInt(NatToString(n)) == Some(n)
  {
    PyIntOfDigits(NatToString(n));
    DigitsValueOfNatToString(n);
  }

  // ---------------------------------------------------------------- slicing, padding

  /** Python's normalisation of a slice bound: negative counts from the end, then clamp to `[0, n]`. */
  function SliceBound(b: int, n: nat): (k: nat)
    ensures k <= n
  {
    var c := if b < 0 then b + n else b;
    if c < 0 then 0 else if c > n then n else c
  }

  /** `s[start:stop]`. */
  function PySlice(s: string, start: int, stop: int): (r: string)
    ensures |r| <= |s|
  {
    var i, j := SliceBound(start, |s|), SliceBound(stop, |s|);
    if i < j then s[i..j] else ""
  }

  /** Left-pad with zeros to at least `width` characters, as `%0<width>d` does for a natural number. */
  function ZeroPad(s: string, width: nat): (r: string)
    ensures |r| == if |s| >= width then |s| else width
    decreases width - |s|
  {
    if |s| >= width then s else ZeroPad("0" + s, width)
  }
}
