/**
 * The Python `str` operations the contact book relies on: `isspace`, `isdigit`,
 * `strip`, `split()`, `split(sep)`, `lower` and `sep.join`, restricted to ASCII.
 */
module Text {
  import opened Lists

  /** `str.isspace` on ASCII: space, \t \n \v \f \r and the separators \x1c-\x1f. */
  predicate IsSpace(c: char) {
    c == ' ' || ('\t' <= c <= '\r') || ('\U{1C}' <= c <= '\U{1F}')
  }

  predicate IsDigit(c: char) {
    '0' <= c <= '9'
  }

  predicate AllSpace(s: string) {
    forall i :: 0 <= i < |s| ==> IsSpace(s[i])
  }

  predicate NoSpace(s: string) {
    forall i :: 0 <= i < |s| ==> !IsSpace(s[i])
  }

  /** `str.isdigit`: at least one character, and every character a digit. */
  predicate IsDigits(s: string) {
    |s| > 0 && forall i :: 0 <= i < |s| ==> IsDigit(s[i])
  }

  /** `str.lstrip()`: what is left after the leading whitespace. */
  function TrimLeft(s: string): (r: string)
    ensures |r| <= |s| && r == s[|s| - |r|..]
    ensures r == [] || !IsSpace(r[0])
  {
    if s != [] && IsSpace(s[0]) then TrimLeft(s[1..]) else s
  }

  /** Everything `TrimLeft` drops is whitespace. */
  lemma {:induction false} TrimLeftDropsSpace(s: string)
    ensures AllSpace(s[..|s| - |TrimLeft(s)|])
  {
    if s != [] && IsSpace(s[0]) {
      var r := TrimLeft(s[1..]);
      assert TrimLeft(s) == r;
      TrimLeftDropsSpace(s[1..]);
      var rest := s[1..][..|s| - 1 - |r|];
      forall i | 0 < i < |s| - |r|
        ensures IsSpace(s[i])
      {
        assert s[i] == rest[i - 1];
      }
    }
  }

  /** `str.rstrip()`: what is left before the trailing whitespace. */
  function TrimRight(s: string): (r: string)
    ensures |r| <= |s| && r == s[..|r|]
    ensures AllSpace(s[|r|..])
    ensures r == [] || !IsSpace(r[|r| - 1])
  {
    if s != [] && IsSpace(s[|s| - 1]) then
      var p := s[..|s| - 1];
      var r := TrimRight(p);
      assert r == s[..|r|] by {
        assert p[..|r|] == s[..|r|];
      }
      assert s[|r|..] == p[|r|..] + [s[|s| - 1]];
      AllSpaceSnoc(p[|r|..], s[|s| - 1]);
      r
    else
      s
  }

  lemma AllSpaceSnoc(w: string, c: char)
    requires AllSpace(w) && IsSpace(c)
    ensures AllSpace(w + [c])
  {
  }

  /**
   * `str.strip()`: the piece of `s` between its leading and its trailing
   * whitespace; empty exactly when `s` is all whitespace.
   */
  function Strip(s: string): (r: string)
    ensures r == [] <==> AllSpace(s)
    ensures r != [] ==> !IsSpace(r[0]) && !IsSpace(r[|r| - 1])
  {
    var t := TrimLeft(s);
    var r := TrimRight(t);
    assert r == [] ==> AllSpace(s) by {
      TrimLeftDropsSpace(s);
      if r == [] {
        assert s == s[..|s| - |t|] + t;
      }
    }
    r
  }

  /** What `strip` keeps is a contiguous piece of `s` with only whitespace around it. */
  lemma StripKeepsMiddle(s: string)
    ensures exists i, j :: 0 <= i <= j <= |s| && Strip(s) == s[i..j] && AllSpace(s[..i]) && AllSpace(s[j..])
  {
    var t := TrimLeft(s);
    var r := TrimRight(t);
    var i := |s| - |t|;
    var j := i + |r|;
    TrimLeftDropsSpace(s);
    assert Strip(s) == r;
    assert t == s[i..];
    assert r == t[..|r|] && AllSpace(t[|r|..]);
    assert r == s[i..j] by {
      SliceOfSuffix(s, i, |r|);
    }
    assert s[j..] == t[|r|..];
    assert AllSpace(s[..i]) && AllSpace(s[j..]);
  }

  /** A prefix of a suffix is a middle slice. */
  lemma SliceOfSuffix(s: string, i: nat, n: nat)
    requires i + n <= |s|
    ensures s[i..][..n] == s[i..i + n]
  {
  }

  /** `strip` leaves a string alone that neither starts nor ends with whitespace. */
  lemma StripUnchanged(s: string)
    requires s != [] ==> !IsSpace(s[0]) && !IsSpace(s[|s| - 1])
    ensures Strip(s) == s
  {
  }

  /**
   * `str.split()` with no separator: the maximal runs of non-whitespace, in
   * order. `word` is the run read so far.
   */
  function SplitFrom(s: string, word: string): seq<string>
    decreases |s|
  {
    if s == [] then
      if word == [] then [] else [word]
    else if IsSpace(s[0]) then
      if word == [] then SplitFrom(s[1..], []) else [word] + SplitFrom(s[1..], [])
    else
      SplitFrom(s[1..], word + [s[0]])
  }

  function Split(s: string): seq<string>
  {
    SplitFrom(s, [])
  }

  /** Every word `split` yields is non-empty and holds no whitespace. */
  lemma SplitTokens(s: string)
    ensures forall k :: 0 <= k < |Split(s)| ==> Split(s)[k] != [] && NoSpace(Split(s)[k])
  {
    SplitFromTokens(s, []);
  }

  lemma {:induction false} SplitFromTokens(s: string, word: string)
    requires NoSpace(word)
    ensures forall k :: 0 <= k < |SplitFrom(s, word)| ==> SplitFrom(s, word)[k] != [] && NoSpace(SplitFrom(s, word)[k])
    decreases |s|
  {
    if s == [] {
    } else if IsSpace(s[0]) {
      SplitFromTokens(s[1..], []);
      if word != [] {
        var rest := SplitFrom(s[1..], []);
        forall k | 0 < k < |[word] + rest|
          ensures ([word] + rest)[k] == rest[k - 1]
        {
        }
      }
    } else {
      var w := word + [s[0]];
      forall i | 0 <= i < |w|
        ensures !IsSpace(w[i])
      {
        if i < |word| {
          assert w[i] == word[i];
        }
      }
      SplitFromTokens(s[1..], w);
    }
  }

  /** `str.lower()` on ASCII letters; every other character is kept. */
  function Lower(s: string): (r: string)
    ensures |r| == |s|
    ensures forall i :: 0 <= i < |s| ==> r[i] == if 'A' <= s[i] <= 'Z' then (s[i] as int + 32) as char else s[i]
  {
    seq(|s|, i requires 0 <= i < |s| => if 'A' <= s[i] <= 'Z' then (s[i] as int + 32) as char else s[i])
  }

  /** `sep.join(xs)`. */
  function Join(xs: seq<string>, sep: string): string
  {
    if |xs| == 0 then ""
    else if |xs| == 1 then xs[0]
    else xs[0] + sep + Join(xs[1..], sep)
  }

  /** A join starts with its first piece. */
  lemma JoinHead(xs: seq<string>, sep: string)
    requires |xs| > 0
    ensures |xs[0]| <= |Join(xs, sep)| && Join(xs, sep)[..|xs[0]|] == xs[0]
  {
    if |xs| > 1 {
      assert Join(xs, sep) == xs[0] + (sep + Join(xs[1..], sep));
    }
  }

  /** `s.split(c)` for a one-character separator: the pieces between the separators. */
  function SplitOn(s: string, c: char): (parts: seq<string>)
    ensures |parts| >= 1
    ensures forall k :: 0 <= k < |parts| ==> c !in parts[k]
    decreases |s|
  {
    if c in s then
      var i := IndexOf(s, c);
      [s[..i]] + SplitOn(s[i + 1..], c)
    else
      [s]
  }

  /** Splitting on `c` undoes joining with `c`, when no piece holds `c`. */
  lemma {:induction false} SplitOnJoin(xs: seq<string>, c: char)
    requires |xs| >= 1
    requires forall k :: 0 <= k < |xs| ==> c !in xs[k]
    ensures SplitOn(Join(xs, [c]), c) == xs
  {
    if |xs| > 1 {
      var rest := Join(xs[1..], [c]);
      assert Join(xs, [c]) == xs[0] + [c] + rest;
      SplitOnStep(xs[0], rest, c);
      assert forall k :: 0 <= k < |xs[1..]| ==> c !in xs[1..][k];
      SplitOnJoin(xs[1..], c);
      assert xs == [xs[0]] + xs[1..];
    }
  }

  /** The text before the first separator is the first piece. */
  lemma SplitOnStep(head: string, rest: string, c: char)
    requires c !in head
    ensures SplitOn(head + [c] + rest, c) == [head] + SplitOn(rest, c)
  {
    var s := head + [c] + rest;
    assert s[|head|] == c && s[..|head|] == head;
    IndexOfAt(s, c, |head|);
    assert s[|head| + 1..] == rest;
  }

  /** Joining with `c` undoes splitting on `c`. */
  lemma {:induction false} JoinSplitOn(s: string, c: char)
    ensures Join(SplitOn(s, c), [c]) == s
    decreases |s|
  {
    if c in s {
      var i := IndexOf(s, c);
      var head, tail := s[..i], s[i + 1..];
      var parts := SplitOn(tail, c);
      assert SplitOn(s, c) == [head] + parts;
      JoinSplitOn(tail, c);
      assert Join([head] + parts, [c]) == head + [c] + Join(parts, [c]) by {
        var xs := [head] + parts;
        assert |xs| > 1 && xs[0] == head && xs[1..] == parts;
      }
      assert s == head + [c] + tail;
    }
  }

  /** The characters of a word are read into the current word. */
  lemma {:induction false} SplitFromWord(w: string, rest: string, word: string)
    requires NoSpace(w)
    ensures SplitFrom(w + rest, word) == SplitFrom(rest, word + w)
  {
    if w != [] {
      assert (w + rest)[0] == w[0];
      assert (w + rest)[1..] == w[1..] + rest;
      SplitFromWord(w[1..], rest, word + [w[0]]);
      assert word + [w[0]] + w[1..] == word + w;
    } else {
      assert w + rest == rest && word + w == word;
    }
  }

  /** `split()` recovers the words that were joined with single spaces. */
  lemma {:induction false} SplitJoin(ws: seq<string>)
    requires forall k :: 0 <= k < |ws| ==> ws[k] != [] && NoSpace(ws[k])
    ensures Split(Join(ws, " ")) == ws
  {
    if |ws| == 1 {
      SplitFromWord(ws[0], [], []);
      assert ws[0] + [] == ws[0] && [] + ws[0] == ws[0];
    } else if |ws| > 1 {
      SplitJoin(ws[1..]);
      SplitJoinStep(ws[0], ws[1..]);
      assert [ws[0]] + ws[1..] == ws;
    }
  }

  lemma SplitJoinStep(w: string, ws: seq<string>)
    requires w != [] && NoSpace(w) && |ws| > 0
    requires Split(Join(ws, " ")) == ws
    ensures Split(Join([w] + ws, " ")) == [w] + ws
  {
    var tail := Join(ws, " ");
    var rest := " " + tail;
    assert Join([w] + ws, " ") == w + rest by {
      JoinCons(w, ws);
      assert w + " " + tail == w + rest;
    }
    assert SplitFrom(w + rest, []) == SplitFrom(rest, w) by {
      SplitFromWord(w, rest, []);
      assert [] + w == w;
    }
    assert SplitFrom(rest, w) == [w] + SplitFrom(tail, []) by {
      assert rest[0] == ' ' && rest[1..] == tail;
    }
  }

  /** Joining one more piece in front puts it and a space before the rest. */
  lemma JoinCons(w: string, ws: seq<string>)
    requires |ws| > 0
    ensures Join([w] + ws, " ") == w + " " + Join(ws, " ")
  {
    var xs := [w] + ws;
    assert |xs| > 1 && xs[0] == w && xs[1..] == ws;
  }

  /** A run of whitespace ends the word being read, and reading starts afresh after it. */
  lemma {:induction false} SplitFromSpaces(w: string, y: string, word: string)
    requires w != [] && AllSpace(w)
    ensures SplitFrom(w + y, word) == (if word == [] then [] else [word]) + SplitFrom(y, [])
    decreases |w|
  {
    var s := w + y;
    assert s[0] == w[0] && s[1..] == w[1..] + y;
    if |w| > 1 {
      assert AllSpace(w[1..]) by {
        forall i | 0 <= i < |w| - 1
          ensures IsSpace(w[1..][i])
        {
          assert w[1..][i] == w[i + 1];
        }
      }
      SplitFromSpaces(w[1..], y, []);
    } else {
      assert s[1..] == y;
    }
  }

  /** A run of whitespace splits the words before it from the words after it. */
  lemma {:induction false} SplitFromGap(x: string, w: string, y: string, word: string)
    requires w != [] && AllSpace(w)
    ensures SplitFrom(x + w + y, word) == SplitFrom(x, word) + SplitFrom(y, [])
    decreases |x|
  {
    if x == [] {
      assert x + w + y == w + y;
      SplitFromSpaces(w, y, word);
    } else {
      var s := x + w + y;
      assert s[0] == x[0] && s[1..] == x[1..] + w + y;
      if IsSpace(x[0]) {
        SplitFromGap(x[1..], w, y, []);
        var before := if word == [] then [] else [word];
        assert SplitFrom(s, word) == before + (SplitFrom(x[1..], []) + SplitFrom(y, []));
        assert SplitFrom(x, word) == before + SplitFrom(x[1..], []);
      } else {
        SplitFromGap(x[1..], w, y, word + [x[0]]);
      }
    }
  }

  /** `split()` on text around a whitespace run is the split of each side, one after the other. */
  lemma SplitSpaces(x: string, w: string, y: string)
    requires w != [] && AllSpace(w)
    ensures Split(x + w + y) == Split(x) + Split(y)
  {
    SplitFromGap(x, w, y, []);
  }

  /** `split()` of all-whitespace text has no words. */
  lemma SplitBlank(w: string)
    requires AllSpace(w)
    ensures Split(w) == []
  {
    if w != [] {
      SplitFromSpaces(w, [], []);
      assert w + [] == w;
    }
  }

  /** `split()` of one word without whitespace is that word. */
  lemma SplitWord(t: string)
    requires t != [] && NoSpace(t)
    ensures Split(t) == [t]
  {
    SplitFromWord(t, [], []);
    assert t + [] == t && [] + t == t;
  }

  /** Whitespace before and after some text adds no words to its `split()`. */
  lemma SplitAround(a: string, m: string, b: string)
    requires AllSpace(a) && AllSpace(b)
    ensures Split(a + m + b) == Split(m)
  {
    assert Split([]) == [];
    if a != [] {
      SplitSpaces([], a, m + b);
      assert [] + a + (m + b) == a + m + b;
    } else {
      assert a + m + b == m + b;
    }
    if b != [] {
      SplitSpaces(m, b, []);
      assert m + b + [] == m + b;
    } else {
      assert m + b == m;
    }
  }

  /** `split()` ignores whitespace at the ends, so stripping first changes nothing. */
  lemma SplitStrip(s: string)
    ensures Split(Strip(s)) == Split(s)
  {
    StripKeepsMiddle(s);
    var i, j :| 0 <= i <= j <= |s| && Strip(s) == s[i..j] && AllSpace(s[..i]) && AllSpace(s[j..]);
    SliceThree(s, i, j);
    SplitAround(s[..i], s[i..j], s[j..]);
  }

  lemma SliceThree(s: string, i: int, j: int)
    requires 0 <= i <= j <= |s|
    ensures s == s[..i] + s[i..j] + s[j..]
  {
    assert s[..j] == s[..i] + s[i..j];
    assert s == s[..j] + s[j..];
  }

  /** Value of a digit character. */
  function DigitValue(c: char): (v: nat)
    requires IsDigit(c)
    ensures v < 10
  {
    c as int - '0' as int
  }

  function DigitChar(v: nat): (c: char)
    requires v < 10
    ensures IsDigit(c) && DigitValue(c) == v
  {
    ('0' as int + v) as char
  }

  /** `int(s)` for a string of ASCII digits. */
  function DecimalValue(s: string): nat
    requires forall i :: 0 <= i < |s| ==> IsDigit(s[i])
  {
    if s == [] then 0 else 10 * DecimalValue(s[..|s| - 1]) + DigitValue(s[|s| - 1])
  }

  function Pow10(w: nat): (p: nat)
    ensures p >= 1
  {
    if w == 0 then 1 else 10 * Pow10(w - 1)
  }

  /** `n` written with exactly `width` digits, zero-padded (`%0<width>d`). */
  function Padded(n: nat, width: nat): (s: string)
    requires n < Pow10(width)
    ensures |s| == width
    ensures forall i :: 0 <= i < |s| ==> IsDigit(s[i])
    ensures DecimalValue(s) == n
  {
    if width == 0 then ""
    else
      var s := Padded(n / 10, width - 1) + [DigitChar(n % 10)];
      assert s[..|s| - 1] == Padded(n / 10, width - 1);
      s
  }

  /** `str(n)` for an integer. */
  function IntText(n: int): string
    decreases if n < 0 then 1 - n else n
  {
    if n < 0 then "-" + IntText(-n)
    else if n < 10 then [DigitChar(n)]
    else IntText(n / 10) + [DigitChar(n % 10)]
  }
}
