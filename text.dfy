/**
 * Character classes and string operations the normaliser and the filters rely on:
 * Python's `str.strip()`, `re.sub(r'\s+', ' ', ...)`, `str.lower()`, the `in`
 * substring test, decimal digit runs and `str()` of a non-negative integer.
 * Only the ASCII range is modelled.
 */
module Text {

  /** The ASCII characters that `str.isspace()` and the regular-expression class `\s`
      accept: tab, line feed, vertical tab, form feed, carriage return, the four
      information separators (0x1C-0x1F) and the space. */
  predicate IsSpace(c: char) {
    var k := c as int;
    k == 32 || 9 <= k <= 13 || 28 <= k <= 31
  }

  /** The regular-expression class `\d` restricted to ASCII. */
  predicate IsDigit(c: char) {
    '0' <= c <= '9'
  }

  /** The non-whitespace characters of `s`, in order. */
  function NonSpace(s: string): string {
    if s == [] then [] else (if IsSpace(s[0]) then [] else [s[0]]) + NonSpace(s[1..])
  }

  lemma {:induction false} NonSpaceAppend(a: string, b: string)
    ensures NonSpace(a + b) == NonSpace(a) + NonSpace(b)
  {
    if a == [] {
      assert a + b == b;
    } else {
      assert (a + b)[1..] == a[1..] + b;
      NonSpaceAppend(a[1..], b);
    }
  }

  /** Whitespace occurs only as single plain spaces: every whitespace character is ' '
      and is not followed by another whitespace character. */
  predicate Canonical(s: string) {
    forall i :: 0 <= i < |s| && IsSpace(s[i]) ==> s[i] == ' ' && (i + 1 == |s| || !IsSpace(s[i + 1]))
  }

  /** What `clean_text` promises: canonical spacing and no whitespace at either end. */
  predicate IsClean(s: string) {
    Canonical(s) && (s != [] ==> !IsSpace(s[0]) && !IsSpace(s[|s| - 1]))
  }

  /** `str.lstrip()`: the suffix of `s` left after dropping its leading whitespace. */
  function TrimLeft(s: string): (r: string)
    ensures |r| <= |s| && r == s[|s| - |r|..]
    ensures r != [] ==> !IsSpace(r[0])
  {
    if s != [] && IsSpace(s[0]) then TrimLeft(s[1..]) else s
  }

  /** What `str.lstrip()` drops is whitespace only. */
  lemma {:induction false} TrimLeftDropsSpaces(s: string)
    ensures forall i :: 0 <= i < |s| - |TrimLeft(s)| ==> IsSpace(s[i])
    ensures NonSpace(TrimLeft(s)) == NonSpace(s)
  {
    if s != [] && IsSpace(s[0]) {
      TrimLeftDropsSpaces(s[1..]);
      forall i | 0 < i < |s| - |TrimLeft(s)|
        ensures IsSpace(s[i])
      {
        assert s[i] == s[1..][i - 1];
      }
    }
  }

  /** `str.rstrip()`: the prefix of `s` left after dropping its trailing whitespace. */
  function TrimRight(s: string): (r: string)
    ensures |r| <= |s| && r == s[..|r|]
    ensures r != [] ==> !IsSpace(r[|r| - 1])
  {
    if s != [] && IsSpace(s[|s| - 1]) then TrimRight(s[..|s| - 1]) else s
  }

  /** What `str.rstrip()` drops is whitespace only. */
  lemma {:induction false} TrimRightDropsSpaces(s: string)
    ensures forall i :: |TrimRight(s)| <= i < |s| ==> IsSpace(s[i])
    ensures NonSpace(TrimRight(s)) == NonSpace(s)
  {
    if s != [] && IsSpace(s[|s| - 1]) {
      var init := s[..|s| - 1];
      TrimRightDropsSpaces(init);
      assert s == init + [s[|s| - 1]];
      NonSpaceAppend(init, [s[|s| - 1]]);
      assert NonSpace([s[|s| - 1]]) == [];
      forall i | |TrimRight(s)| <= i < |s| - 1
        ensures IsSpace(s[i])
      {
        assert s[i] == init[i];
      }
    }
  }

  /** Every character of `w` is whitespace. */
  predicate AllSpace(w: string) {
    forall i :: 0 <= i < |w| ==> IsSpace(w[i])
  }

  /** `str.strip()`. */
  function Strip(s: string): (r: string)
    ensures r != [] ==> !IsSpace(r[0]) && !IsSpace(r[|r| - 1])
  {
    TrimRight(TrimLeft(s))
  }

  /** `str.strip()` is `s` less its leading and trailing whitespace: the result is the slice
      of `s` that starts where `lstrip` stops, and everything outside that slice is
      whitespace. With the ensures of `Strip` this fixes the result. */
  lemma StripDropsSpaces(s: string)
    ensures var start, r := |s| - |TrimLeft(s)|, Strip(s);
      start + |r| <= |s| && r == s[start..start + |r|]
    ensures var start, r := |s| - |TrimLeft(s)|, Strip(s);
      forall j :: 0 <= j < |s| && (j < start || start + |r| <= j) ==> IsSpace(s[j])
  {
    StripSlice(s);
    StripLeftSpaces(s);
    StripRightSpaces(s);
  }

  /** The stripped string is a slice of `s`, starting where `lstrip` stops. */
  lemma StripSlice(s: string)
    ensures var start, r := |s| - |TrimLeft(s)|, Strip(s);
      start + |r| <= |s| && r == s[start..start + |r|]
  {
    var t := TrimLeft(s);
    var start, r := |s| - |t|, TrimRight(t);
    assert t == s[start..] && r == t[..|r|];
  }

  /** Everything before that slice is whitespace. */
  lemma StripLeftSpaces(s: string)
    ensures forall j :: 0 <= j < |s| - |TrimLeft(s)| ==> IsSpace(s[j])
  {
    TrimLeftDropsSpaces(s);
  }

  /** Everything after that slice is whitespace. */
  lemma StripRightSpaces(s: string)
    ensures forall j :: |s| - |TrimLeft(s)| + |Strip(s)| <= j < |s| ==> IsSpace(s[j])
  {
    var t := TrimLeft(s);
    var start, r := |s| - |t|, TrimRight(t);
    TrimRightDropsSpaces(t);
    forall j | start + |r| <= j < |s|
      ensures IsSpace(s[j])
    {
      assert s[j] == t[j - start];
    }
  }

  /** `re.sub(r'\s+', ' ', s)`: scanning left to right, each maximal run of whitespace
      is replaced by one space. */
  function Collapse(s: string): (r: string)
    ensures r == [] <==> s == []
    ensures r != [] ==> (IsSpace(r[0]) <==> IsSpace(s[0]))
    decreases |s|
  {
    if s == [] then []
    else if IsSpace(s[0]) then " " + Collapse(TrimLeft(s))
    else [s[0]] + Collapse(s[1..])
  }

  /** Collapsing keeps whether the last character is whitespace. */
  lemma {:induction false} CollapseLast(s: string)
    ensures Collapse(s) != [] ==> (IsSpace(Collapse(s)[|Collapse(s)| - 1]) <==> IsSpace(s[|s| - 1]))
    decreases |s|
  {
    if s != [] {
      var r := Collapse(s);
      if IsSpace(s[0]) {
        var t := TrimLeft(s);
        TrimLeftDropsSpaces(s);
        CollapseLast(t);
        assert r == " " + Collapse(t);
      } else {
        CollapseLast(s[1..]);
        assert r == [s[0]] + Collapse(s[1..]);
      }
    }
  }

  /** Collapsing keeps every non-whitespace character, in order. */
  lemma {:induction false} CollapseNonSpace(s: string)
    ensures NonSpace(Collapse(s)) == NonSpace(s)
    decreases |s|
  {
    if s != [] {
      var r := Collapse(s);
      if IsSpace(s[0]) {
        var t := TrimLeft(s);
        CollapseNonSpace(t);
        TrimLeftDropsSpaces(s);
        assert r[1..] == Collapse(t);
        assert NonSpace(s) == NonSpace(s[1..]);
      } else {
        CollapseNonSpace(s[1..]);
        assert r[1..] == Collapse(s[1..]);
      }
    }
  }

  /** Collapsing leaves only single plain spaces. */
  lemma {:induction false} CollapseIsCanonical(s: string)
    ensures Canonical(Collapse(s))
    decreases |s|
  {
    if s != [] {
      var r := Collapse(s);
      if IsSpace(s[0]) {
        var t := TrimLeft(s);
        var rest := Collapse(t);
        CollapseIsCanonical(t);
        assert r == " " + rest;
        forall i | 0 <= i < |r| && IsSpace(r[i])
          ensures r[i] == ' ' && (i + 1 == |r| || !IsSpace(r[i + 1]))
        {
          if i > 0 {
            assert r[i] == rest[i - 1];
          }
        }
      } else {
        var rest := Collapse(s[1..]);
        CollapseIsCanonical(s[1..]);
        assert r == [s[0]] + rest;
        forall i | 0 <= i < |r| && IsSpace(r[i])
          ensures r[i] == ' ' && (i + 1 == |r| || !IsSpace(r[i + 1]))
        {
          assert r[i] == rest[i - 1];
        }
      }
    }
  }

  /** `clean_text` on a string: strip, then collapse every whitespace run to one space.
      The result is clean and keeps every other character, in order. */
  function CleanText(s: string): (r: string)
    ensures IsClean(r)
    ensures NonSpace(r) == NonSpace(s)
  {
    TrimLeftDropsSpaces(s);
    TrimRightDropsSpaces(TrimLeft(s));
    CollapseNonSpace(Strip(s));
    CollapseIsCanonical(Strip(s));
    CollapseLast(Strip(s));
    Collapse(Strip(s))
  }

  /** `lstrip` of whitespace in front of a string that does not start with whitespace
      leaves that string. */
  lemma {:induction false} TrimLeftSpaces(w: string, b: string)
    requires AllSpace(w)
    requires b == [] || !IsSpace(b[0])
    ensures TrimLeft(w + b) == b
  {
    if w == [] {
      assert w + b == b;
    } else {
      assert (w + b)[1..] == w[1..] + b;
      TrimLeftSpaces(w[1..], b);
    }
  }

  /** `lstrip` of `a + t` stops inside `a` when `a` ends with a non-space. */
  lemma {:induction false} TrimLeftAppend(a: string, t: string)
    requires a != [] && !IsSpace(a[|a| - 1])
    ensures TrimLeft(a + t) == TrimLeft(a) + t
  {
    assert (a + t)[0] == a[0];
    if IsSpace(a[0]) {
      assert (a + t)[1..] == a[1..] + t;
      TrimLeftAppend(a[1..], t);
    }
  }

  /** `rstrip` of `t + b` stops inside `b` when `b` starts with a non-space. */
  lemma {:induction false} TrimRightAppend(t: string, b: string)
    requires b != [] && !IsSpace(b[0])
    ensures TrimRight(t + b) == t + TrimRight(b)
    decreases |b|
  {
    assert (t + b)[|t + b| - 1] == b[|b| - 1];
    if IsSpace(b[|b| - 1]) {
      assert (t + b)[..|t + b| - 1] == t + b[..|b| - 1];
      TrimRightAppend(t, b[..|b| - 1]);
    }
  }

  /** One step of `Collapse` on a string that starts with whitespace. */
  lemma CollapseSpaceHead(s: string)
    requires s != [] && IsSpace(s[0])
    ensures Collapse(s) == " " + Collapse(TrimLeft(s))
  {
  }

  /** One step of `Collapse` on a string that starts with a non-space. */
  lemma CollapseOtherHead(s: string)
    requires s != [] && !IsSpace(s[0])
    ensures Collapse(s) == [s[0]] + Collapse(s[1..])
  {
  }

  /** A proof step only (it models nothing): concatenation regrouped. `Seqs.Regroup` states
      the same for any element type; this module keeps its own copy so that it does not
      import the subsequence theory into the string proofs. */
  lemma Assoc(a: string, w: string, b: string)
    ensures a + w + b == a + (w + b)
  {
  }

  /** A proof step only (it models nothing): concatenation regrouped around a separator,
      stated once so that the `Collapse` proofs need not regroup long chains inline. */
  lemma Regroup3(p: string, x: string, q: string, y: string)
    ensures p + (x + q + y) == (p + x) + q + y
  {
  }

  /** `CollapseRun` with nothing in front of the run. */
  lemma CollapseRunEmpty(w: string, b: string)
    requires w != [] && AllSpace(w)
    requires b == [] || !IsSpace(b[0])
    ensures Collapse([] + w + b) == Collapse([]) + " " + Collapse(b)
  {
    assert [] + w + b == w + b;
    TrimLeftSpaces(w, b);
    CollapseSpaceHead(w + b);
  }

  /** `lstrip` of a text that starts with whitespace and ends with a non-space is shorter
      and still ends with that character. */
  lemma TrimLeftKeepsLast(a: string)
    requires a != [] && IsSpace(a[0]) && !IsSpace(a[|a| - 1])
    ensures |TrimLeft(a)| < |a|
    ensures TrimLeft(a) != [] && TrimLeft(a)[|TrimLeft(a)| - 1] == a[|a| - 1]
  {
    TrimLeftDropsSpaces(a);
  }

  /** `Collapse` of a text that starts with whitespace and ends with a non-space, with
      anything appended: the leading run becomes one space in front of the rest. */
  lemma {:induction false} CollapseSpacePrefix(a: string, u: string)
    requires a != [] && IsSpace(a[0]) && !IsSpace(a[|a| - 1])
    ensures Collapse(a + u) == " " + Collapse(TrimLeft(a) + u)
  {
    ConsTail(a, u);
    CollapseSpaceHead(a + u);
    TrimLeftAppend(a, u);
  }

  /** The step of `CollapseRun` for a text that starts with whitespace: the run in front is
      collapsed together with the rest of the text. */
  lemma {:induction false} CollapseRunSpaceStep(a: string, t: string, w: string, b: string)
    requires a != [] && IsSpace(a[0]) && !IsSpace(a[|a| - 1]) && t == TrimLeft(a)
    requires Collapse(t + w + b) == Collapse(t) + " " + Collapse(b)
    ensures Collapse(a + w + b) == Collapse(a) + " " + Collapse(b)
  {
    var u := w + b;
    Assoc(a, w, b);
    Assoc(t, w, b);
    CollapseSpacePrefix(a, u);
    CollapseSpaceHead(a);
    Regroup3(" ", Collapse(t), " ", Collapse(b));
  }

  /** The step of `CollapseRun` for a text that starts with a non-space character. */
  lemma {:induction false} CollapseRunOtherStep(a: string, w: string, b: string)
    requires a != [] && !IsSpace(a[0])
    requires Collapse(a[1..] + w + b) == Collapse(a[1..]) + " " + Collapse(b)
    ensures Collapse(a + w + b) == Collapse(a) + " " + Collapse(b)
  {
    var u, rest := w + b, a[1..];
    calc {
      Collapse(a + w + b);
    == { Assoc(a, w, b); }
      Collapse(a + u);
    == { ConsTail(a, u); CollapseOtherHead(a + u); }
      [a[0]] + Collapse(rest + u);
    == { Assoc(rest, w, b); }
      [a[0]] + (Collapse(rest) + " " + Collapse(b));
    == { Regroup3([a[0]], Collapse(rest), " ", Collapse(b)); }
      ([a[0]] + Collapse(rest)) + " " + Collapse(b);
    == { CollapseOtherHead(a); }
      Collapse(a) + " " + Collapse(b);
    }
  }

  /** A proof step only (it models nothing): head and tail of a concatenation whose first
      part is non-empty. */
  lemma ConsTail(a: string, u: string)
    requires a != []
    ensures (a + u)[0] == a[0] && (a + u)[1..] == a[1..] + u
  {
  }

  /** A whitespace run with a non-space character (or an end of the string) on each side
      becomes exactly one space, and the text on either side is collapsed on its own. */
  lemma {:induction false} CollapseRun(a: string, w: string, b: string)
    requires w != [] && AllSpace(w)
    requires a == [] || !IsSpace(a[|a| - 1])
    requires b == [] || !IsSpace(b[0])
    ensures Collapse(a + w + b) == Collapse(a) + " " + Collapse(b)
    decreases |a|
  {
    if a == [] {
      CollapseRunEmpty(w, b);
    } else if IsSpace(a[0]) {
      var t := TrimLeft(a);
      TrimLeftKeepsLast(a);
      CollapseRun(t, w, b);
      CollapseRunSpaceStep(a, t, w, b);
    } else {
      CollapseRun(a[1..], w, b);
      CollapseRunOtherStep(a, w, b);
    }
  }

  /** `strip` of a text with a whitespace run between two non-space characters only
      touches the two ends. */
  lemma StripAround(a: string, w: string, b: string)
    requires a != [] && !IsSpace(a[|a| - 1])
    requires b != [] && !IsSpace(b[0])
    ensures Strip(a + w + b) == TrimLeft(a) + w + TrimRight(b)
  {
    var t := TrimLeft(a);
    Assoc(a, w, b);
    TrimLeftAppend(a, w + b);
    Assoc(t, w, b);
    TrimRightAppend(t + w, b);
  }

  /** `clean_text` of a text ending with a non-space only strips on the left; what is left
      still ends with that character. */
  lemma CleanTextOfLeft(a: string)
    requires a != [] && !IsSpace(a[|a| - 1])
    ensures CleanText(a) == Collapse(TrimLeft(a))
    ensures TrimLeft(a) == [] || !IsSpace(TrimLeft(a)[|TrimLeft(a)| - 1])
  {
    var t := TrimLeft(a);
    assert t == [] || t[|t| - 1] == a[|a| - 1];
    TrimRightKeeps(t);
    assert CleanText(a) == Collapse(Strip(a));
  }

  /** `rstrip` leaves a text that does not end with whitespace alone. */
  lemma TrimRightKeeps(t: string)
    requires t == [] || !IsSpace(t[|t| - 1])
    ensures TrimRight(t) == t
  {
  }

  /** `clean_text` of a text starting with a non-space only strips on the right; what is
      left still starts with that character. */
  lemma CleanTextOfRight(b: string)
    requires b != [] && !IsSpace(b[0])
    ensures CleanText(b) == Collapse(TrimRight(b))
    ensures TrimRight(b) == [] || !IsSpace(TrimRight(b)[0])
  {
    assert TrimLeft(b) == b;
    assert CleanText(b) == Collapse(Strip(b));
  }

  /** `clean_text` turns a whitespace run between two non-space characters into exactly one
      space, and cleans the text on either side on its own. */
  lemma CleanTextRun(a: string, w: string, b: string)
    requires w != [] && AllSpace(w)
    requires a != [] && !IsSpace(a[|a| - 1])
    requires b != [] && !IsSpace(b[0])
    ensures CleanText(a + w + b) == CleanText(a) + " " + CleanText(b)
  {
    StripAround(a, w, b);
    CleanTextOfLeft(a);
    CleanTextOfRight(b);
    CollapseRun(TrimLeft(a), w, TrimRight(b));
  }

  /** Dropping the first character keeps canonical spacing. */
  lemma CanonicalTail(s: string)
    requires s != [] && Canonical(s)
    ensures Canonical(s[1..])
  {
    var tail := s[1..];
    forall i | 0 <= i < |tail| && IsSpace(tail[i])
      ensures tail[i] == ' ' && (i + 1 == |tail| || !IsSpace(tail[i + 1]))
    {
      assert tail[i] == s[i + 1];
    }
  }

  /** One step of `CollapseCanonical`: a canonical head in front of a tail that collapsing
      leaves alone. */
  lemma CollapseStep(s: string)
    requires s != [] && Collapse(s[1..]) == s[1..]
    requires IsSpace(s[0]) ==> s[0] == ' ' && (|s| == 1 || !IsSpace(s[1]))
    ensures Collapse(s) == s
  {
    var tail := s[1..];
    if IsSpace(s[0]) {
      assert TrimLeft(s) == tail;
      assert s == " " + tail;
    } else {
      assert s == [s[0]] + tail;
    }
  }

  /** Collapsing changes nothing in a string whose spacing is already canonical. */
  lemma {:induction false} CollapseCanonical(s: string)
    requires Canonical(s)
    ensures Collapse(s) == s
    decreases |s|
  {
    if s != [] {
      CanonicalTail(s);
      CollapseCanonical(s[1..]);
      assert IsSpace(s[0]) ==> s[0] == ' ' && (|s| == 1 || !IsSpace(s[1]));
      CollapseStep(s);
    }
  }

  /** A string is clean exactly when `clean_text` leaves it unchanged. */
  lemma CleanTextFixpoint(s: string)
    ensures CleanText(s) == s <==> IsClean(s)
  {
    if IsClean(s) {
      assert TrimLeft(s) == s;
      assert TrimRight(s) == s;
      CollapseCanonical(s);
    }
  }

  /** Cleaning twice is cleaning once. */
  lemma CleanTextIdempotent(s: string)
    ensures CleanText(CleanText(s)) == CleanText(s)
  {
    CleanTextFixpoint(CleanText(s));
  }

  /** `str.lower()` on one character, ASCII letters only. */
  function LowerChar(c: char): (r: char)
    ensures !('A' <= r <= 'Z')
    ensures 'A' <= c <= 'Z' ==> r as int == c as int + 32
    ensures 'A' <= c <= 'Z' || r == c
  {
    if 'A' <= c <= 'Z' then (c as int - 'A' as int + 'a' as int) as char else c
  }

  /** `str.lower()`: every ASCII capital is replaced by its small letter; nothing else changes. */
  function Lower(s: string): (r: string)
    ensures |r| == |s|
    ensures forall i :: 0 <= i < |s| ==> r[i] == LowerChar(s[i])
  {
    if s == [] then [] else [LowerChar(s[0])] + Lower(s[1..])
  }

  /** Python's `needle in haystack`: `needle` occurs at some position of `haystack`. */
  predicate IsSubstring(needle: string, haystack: string)
    decreases |haystack|
  {
    needle <= haystack || (haystack != [] && IsSubstring(needle, haystack[1..]))
  }

  /** The recursive test agrees with "some slice of `haystack` equals `needle`". */
  lemma {:induction false} IsSubstringAt(needle: string, haystack: string, i: nat)
    requires i + |needle| <= |haystack|
    ensures haystack[i..i + |needle|] == needle ==> IsSubstring(needle, haystack)
    decreases i
  {
    if i > 0 && haystack[i..i + |needle|] == needle {
      assert haystack[1..][i - 1..i - 1 + |needle|] == haystack[i..i + |needle|];
      IsSubstringAt(needle, haystack[1..], i - 1);
    }
  }

  /** A position at which `needle` occurs in `haystack`: whenever the recursive test holds,
      some slice of `haystack` equals `needle` (the converse of `IsSubstringAt`). */
  function Pos(needle: string, haystack: string): (i: nat)
    requires IsSubstring(needle, haystack)
    ensures i + |needle| <= |haystack| && haystack[i..i + |needle|] == needle
    decreases |haystack|
  {
    if needle <= haystack then 0
    else
      var j := Pos(needle, haystack[1..]);
      assert haystack[1..][j..j + |needle|] == haystack[j + 1..j + 1 + |needle|];
      j + 1
  }

  /** No character of `s` is a digit. */
  predicate NoDigits(s: string) {
    forall j :: 0 <= j < |s| ==> !IsDigit(s[j])
  }

  predicate AllDigits(d: string) {
    forall i :: 0 <= i < |d| ==> IsDigit(d[i])
  }

  /** `str.isdigit()`: non-empty and made of digits only. */
  predicate IsDigitString(s: string) {
    s != [] && AllDigits(s)
  }

  function DigitValue(c: char): (v: nat)
    requires IsDigit(c)
    ensures v < 10
  {
    c as int - '0' as int
  }

  function DigitChar(v: nat): (c: char)
    requires v < 10
    ensures IsDigit(c) && DigitValue(c) == v
  {
    ('0' as int + v) as char
  }

  /** `int(d)` for a string of decimal digits (leading zeros allowed). */
  function DigitsValue(d: string): nat
    requires AllDigits(d)
  {
    if d == [] then 0 else 10 * DigitsValue(d[..|d| - 1]) + DigitValue(d[|d| - 1])
  }

  /** The longest prefix of `s` made of digits: what `\d+` matches at the start of `s`. */
  function LeadingDigits(s: string): (d: string)
    ensures d <= s && AllDigits(d)
    ensures |d| < |s| ==> !IsDigit(s[|d|])
  {
    if s != [] && IsDigit(s[0]) then [s[0]] + LeadingDigits(s[1..]) else []
  }

  /** The leading digit run of a digit string followed by a non-digit is that digit string. */
  lemma {:induction false} LeadingDigitsOf(d: string, rest: string)
    requires AllDigits(d)
    requires rest == [] || !IsDigit(rest[0])
    ensures LeadingDigits(d + rest) == d
  {
    if d != [] {
      assert (d + rest)[1..] == d[1..] + rest;
      LeadingDigitsOf(d[1..], rest);
    }
  }

  /** `str(n)` for a non-negative integer: its decimal digits without leading zeros.
      Reading them back gives `n`. */
  function Show(n: nat): (d: string)
    ensures d != [] && AllDigits(d)
    ensures DigitsValue(d) == n
    ensures |d| > 1 ==> d[0] != '0'
  {
    if n < 10 then [DigitChar(n)]
    else
      var d := Show(n / 10) + [DigitChar(n % 10)];
      assert d[..|d| - 1] == Show(n / 10);
      d
  }
}
