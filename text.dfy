/**
  String helpers with the behaviour of the Python built-ins the request
  processor relies on: str.strip(), str.split(sep), sep.join(parts),
  str.lower() and os.path.splitext (POSIX flavour).
 */
module Text {

  /** Python's str.isspace() for one character. */
  predicate IsSpace(c: char) {
    c == ' ' || '\t' <= c <= '\r' || '\U{1C}' <= c <= '\U{1F}' ||
    c == '\U{85}' || c == '\U{A0}' || c == '\U{1680}' || '\U{2000}' <= c <= '\U{200A}' ||
    c == '\U{2028}' || c == '\U{2029}' || c == '\U{202F}' || c == '\U{205F}' || c == '\U{3000}'
  }

  predicate AllSpace(s: string) {
    forall i :: 0 <= i < |s| ==> IsSpace(s[i])
  }

  /** Neither starts nor ends with whitespace. */
  predicate Stripped(s: string) {
    s == [] || (!IsSpace(s[0]) && !IsSpace(s[|s| - 1]))
  }

  /** How many whitespace characters s starts with. */
  function LeadingSpaces(s: string): (n: nat)
    ensures n <= |s|
    ensures forall i :: 0 <= i < n ==> IsSpace(s[i])
    ensures n == |s| || !IsSpace(s[n])
  {
    if s != [] && IsSpace(s[0]) then 1 + LeadingSpaces(s[1..]) else 0
  }

  /** How many whitespace characters s ends with. */
  function TrailingSpaces(s: string): (n: nat)
    ensures n <= |s|
    ensures forall i :: |s| - n <= i < |s| ==> IsSpace(s[i])
    ensures n == |s| || !IsSpace(s[|s| - n - 1])
  {
    if s != [] && IsSpace(s[|s| - 1]) then 1 + TrailingSpaces(s[..|s| - 1]) else 0
  }

  /** str.strip() with no argument: drops leading, then trailing whitespace. */
  function Strip(s: string): (r: string)
    ensures |r| <= |s|
    ensures Stripped(r)
  {
    var t := s[LeadingSpaces(s)..];
    assert t != [] ==> !IsSpace(t[0]);
    t[..|t| - TrailingSpaces(t)]
  }

  /** Strip leaves text without leading or trailing whitespace unchanged. */
  lemma StripOfStripped(m: string)
    requires Stripped(m)
    ensures Strip(m) == m
  {
    assert LeadingSpaces(m) == 0;
    assert TrailingSpaces(m) == 0;
  }

  /** Strip removes exactly the whitespace padding around a stripped core. */
  lemma StripPadded(a: string, m: string, b: string)
    requires AllSpace(a) && AllSpace(b) && Stripped(m)
    ensures Strip(a + m + b) == m
  {
    var s := a + m + b;
    var n := LeadingSpaces(s);
    if m == [] {
      assert forall i :: 0 <= i < |s| ==> IsSpace(s[i]);
      assert n == |s|;
    } else {
      assert s[|a|] == m[0];
      assert n == |a|;
      var t := s[n..];
      assert t == m + b;
      var k := TrailingSpaces(t);
      assert t[|m| - 1] == m[|m| - 1];
      assert k == |b|;
      assert t[..|t| - k] == m;
    }
  }

  /** Index of the first occurrence of c in s. */
  function IndexOf(s: string, c: char): (i: nat)
    requires c in s
    ensures i < |s| && s[i] == c
    ensures forall k :: 0 <= k < i ==> s[k] != c
  {
    if s[0] == c then 0 else 1 + IndexOf(s[1..], c)
  }

  /** Index of the last occurrence of c in s, or -1 (str.rfind). */
  function LastIndexOf(s: string, c: char): (i: int)
    ensures -1 <= i < |s|
    ensures i >= 0 ==> s[i] == c
    ensures forall k :: i < k < |s| ==> s[k] != c
  {
    if s == [] then -1
    else if s[|s| - 1] == c then |s| - 1
    else LastIndexOf(s[..|s| - 1], c)
  }

  /** str.split(c) with an explicit one-character separator. */
  function Split(s: string, c: char): (parts: seq<string>)
    ensures |parts| >= 1
    decreases |s|
  {
    if c in s then
      var i := IndexOf(s, c);
      [s[..i]] + Split(s[i + 1..], c)
    else
      [s]
  }

  /** The first piece of a split is the text before the first separator; there is a second piece exactly when the separator occurs. */
  lemma SplitHead(s: string, c: char)
    ensures c in s <==> |Split(s, c)| >= 2
    ensures Split(s, c)[0] == if c in s then s[..IndexOf(s, c)] else s
    ensures c in s ==> Split(s, c)[1..] == Split(s[IndexOf(s, c) + 1..], c)
  {
    var parts := Split(s, c);
    if c in s {
      var i := IndexOf(s, c);
      var rest := Split(s[i + 1..], c);
      assert parts == [s[..i]] + rest;
      assert parts[0] == s[..i];
      assert parts[1..] == rest;
    } else {
      assert parts == [s];
    }
  }

  /** A split has one more piece than the text has separators. */
  lemma {:induction false} SplitCount(s: string, c: char)
    ensures |Split(s, c)| == multiset(s)[c] + 1
    decreases |s|
  {
    if c in s {
      var i := IndexOf(s, c);
      assert s == s[..i] + [c] + s[i + 1..];
      assert c !in s[..i];
      SplitCount(s[i + 1..], c);
    } else {
      assert c !in multiset(s);
    }
  }

  /** No piece of a split contains the separator. */
  lemma {:induction false} SplitPiecesFree(s: string, c: char)
    ensures forall k :: 0 <= k < |Split(s, c)| ==> c !in Split(s, c)[k]
    decreases |s|
  {
    if c in s {
      var i := IndexOf(s, c);
      var rest := Split(s[i + 1..], c);
      assert Split(s, c) == [s[..i]] + rest;
      SplitPiecesFree(s[i + 1..], c);
      forall k | 0 <= k < |Split(s, c)| ensures c !in Split(s, c)[k] {
        if k > 0 { assert Split(s, c)[k] == rest[k - 1]; }
      }
    }
  }

  /** sep.join(parts). */
  function Join(sep: string, parts: seq<string>): string
  {
    if |parts| == 0 then ""
    else if |parts| == 1 then parts[0]
    else parts[0] + sep + Join(sep, parts[1..])
  }

  /** Joining one more part appends the separator and that part. */
  lemma {:induction false} JoinAppend(sep: string, parts: seq<string>, last: string)
    requires parts != []
    ensures Join(sep, parts + [last]) == Join(sep, parts) + sep + last
    decreases |parts|
  {
    var more := parts + [last];
    assert more[0] == parts[0] && more[1..] == parts[1..] + [last];
    if |parts| > 1 {
      JoinAppend(sep, parts[1..], last);
      calc {
        Join(sep, more);
        parts[0] + sep + Join(sep, parts[1..] + [last]);
        parts[0] + sep + (Join(sep, parts[1..]) + sep + last);
        (parts[0] + sep + Join(sep, parts[1..])) + sep + last;
      }
    } else {
      assert more[1..] == [last];
    }
  }

  /** Joining the pieces of a split with the separator gives the original text back. */
  lemma {:induction false} JoinSplit(s: string, c: char)
    ensures Join([c], Split(s, c)) == s
    decreases |s|
  {
    if c in s {
      var i := IndexOf(s, c);
      var rest := Split(s[i + 1..], c);
      assert Split(s, c) == [s[..i]] + rest;
      assert ([s[..i]] + rest)[1..] == rest;
      JoinSplit(s[i + 1..], c);
      assert s == s[..i] + [c] + s[i + 1..];
    }
  }

  /** Splitting a join recovers the parts, when no part contains the separator. */
  lemma {:induction false} SplitJoin(parts: seq<string>, c: char)
    requires |parts| >= 1
    requires forall k :: 0 <= k < |parts| ==> c !in parts[k]
    ensures Split(Join([c], parts), c) == parts
  {
    if |parts| > 1 {
      var p := parts[0];
      var tail := Join([c], parts[1..]);
      var s := p + [c] + tail;
      assert Join([c], parts) == s;
      assert s[|p|] == c;
      var i := IndexOf(s, c);
      assert i == |p|;
      assert s[..i] == p;
      assert s[i + 1..] == tail;
      SplitJoin(parts[1..], c);
      assert parts == [p] + parts[1..];
    }
  }

  /** Any spelling of a lower-case word that differs from it only in letter case lower-cases to it. */
  lemma LowerOfSpelling(s: string, word: string)
    requires EqualIgnoringCase(s, word)
    requires forall i :: 0 <= i < |word| ==> !('A' <= word[i] <= 'Z')
    ensures Lower(s) == word
  {
    LowerIgnoresCase(s, word);
    assert Lower(word) == word;
  }

  /** Lower-cases an ASCII letter; every other character is kept. */
  function LowerChar(c: char): char {
    if 'A' <= c <= 'Z' then (c as int + 32) as char else c
  }

  /**
    str.lower(), restricted to ASCII letters: no capital is left, every
    other character stays where it was, and a capital becomes the same
    letter in lower case.
   */
  function Lower(s: string): (r: string)
    ensures |r| == |s|
    ensures forall i :: 0 <= i < |r| ==> !('A' <= r[i] <= 'Z')
    ensures forall i :: 0 <= i < |s| && !('A' <= s[i] <= 'Z') ==> r[i] == s[i]
    ensures forall i :: 0 <= i < |s| && 'A' <= s[i] <= 'Z' ==>
      'a' <= r[i] <= 'z' && r[i] as int - 'a' as int == s[i] as int - 'A' as int
  {
    seq(|s|, i requires 0 <= i < |s| => LowerChar(s[i]))
  }

  /** a and b are the same character, or the same ASCII letter in different cases. */
  predicate SameLetter(a: char, b: char) {
    a == b ||
    ('A' <= a <= 'Z' && b as int == a as int + 32) ||
    ('A' <= b <= 'Z' && a as int == b as int + 32)
  }

  /** s and t differ at most in the case of their ASCII letters. */
  predicate EqualIgnoringCase(s: string, t: string) {
    |s| == |t| && forall i :: 0 <= i < |s| ==> SameLetter(s[i], t[i])
  }

  /** Strings that differ only in letter case lower-case to the same string. */
  lemma LowerIgnoresCase(s: string, t: string)
    requires EqualIgnoringCase(s, t)
    ensures Lower(s) == Lower(t)
  {
    forall i | 0 <= i < |s| ensures Lower(s)[i] == Lower(t)[i] {
      assert SameLetter(s[i], t[i]);
    }
  }

  /** Some character of p[lo..hi] is not a dot. */
  predicate HasNonDot(p: string, lo: int, hi: int)
    requires 0 <= lo && hi <= |p|
  {
    exists k :: lo <= k < hi && p[k] != '.'
  }

  /**
    os.path.splitext on POSIX paths: the extension starts at the last dot of
    the last path component, unless everything before that dot in the
    component is dots (a hidden file such as ".csv" has no extension).
   */
  function SplitExt(p: string): (parts: (string, string))
    ensures parts.0 + parts.1 == p
    ensures parts.1 == [] || (parts.1[0] == '.' && '.' !in parts.1[1..] && '/' !in parts.1)
  {
    var sepIndex := LastIndexOf(p, '/');
    var dotIndex := LastIndexOf(p, '.');
    if dotIndex > sepIndex && HasNonDot(p, sepIndex + 1, dotIndex) then
      assert p[dotIndex..][1..] == p[dotIndex + 1..];
      (p[..dotIndex], p[dotIndex..])
    else
      (p, "")
  }

  /** os.path.splitext(fname)[-1].split(os.extsep)[-1].lower() */
  function Extension(fname: string): string
  {
    var parts := Split(SplitExt(fname).1, '.');
    Lower(parts[|parts| - 1])
  }

  /** Appending text without c leaves the last occurrence of c where it was. */
  lemma {:induction false} LastIndexOfAppend(s: string, t: string, c: char)
    requires c !in t
    ensures LastIndexOf(s + t, c) == LastIndexOf(s, c)
    decreases |t|
  {
    if t == [] {
      assert s + t == s;
    } else {
      assert (s + t)[..|s + t| - 1] == s + t[..|t| - 1];
      LastIndexOfAppend(s, t[..|t| - 1], c);
    }
  }

  /** In base + "." + e, the last dot is the one added. */
  lemma DottedLastDot(base: string, e: string)
    requires '.' !in e
    ensures LastIndexOf(base + "." + e, '.') == |base|
  {
    var q := base + ".";
    assert base + "." + e == q + e;
    LastIndexOfAppend(q, e, '.');
  }

  /** In base + "." + e, the last slash is base's. */
  lemma DottedLastSlash(base: string, e: string)
    requires '/' !in e
    ensures LastIndexOf(base + "." + e, '/') == LastIndexOf(base, '/')
  {
    var q := base + ".";
    assert base + "." + e == q + e;
    assert '/' !in ".";
    LastIndexOfAppend(q, e, '/');
    LastIndexOfAppend(base, ".", '/');
  }

  /** What follows base in base + "." + e. */
  lemma DottedSuffix(base: string, e: string)
    ensures (base + "." + e)[|base|..] == "." + e
  {
    assert base + "." + e == base + ("." + e);
  }

  /** A non-dot character of base is still there in base + "." + e. */
  lemma NonDotCarries(base: string, e: string, lo: int)
    requires 0 <= lo && HasNonDot(base, lo, |base|)
    ensures HasNonDot(base + "." + e, lo, |base|)
  {
    var k :| lo <= k < |base| && base[k] != '.';
    assert (base + "." + e)[k] == base[k];
  }

  /** splitext of a named file with a dotted suffix splits at that dot. */
  lemma SplitExtDotted(base: string, e: string)
    requires '.' !in e && '/' !in e
    requires HasNonDot(base, LastIndexOf(base, '/') + 1, |base|)
    ensures SplitExt(base + "." + e).1 == "." + e
  {
    var p := base + "." + e;
    var bs := LastIndexOf(base, '/');
    DottedLastDot(base, e);
    DottedLastSlash(base, e);
    DottedSuffix(base, e);
    NonDotCarries(base, e, bs + 1);
    assert LastIndexOf(p, '.') > LastIndexOf(p, '/');
    assert SplitExt(p) == (p[..|base|], p[|base|..]);
  }

  /** The extension is the lower-cased text after the last dot of a named file. */
  lemma ExtensionOfDotted(base: string, e: string)
    requires '.' !in e && '/' !in e
    requires HasNonDot(base, LastIndexOf(base, '/') + 1, |base|)
    ensures Extension(base + "." + e) == Lower(e)
  {
    SplitExtDotted(base, e);
    assert IndexOf("." + e, '.') == 0;
    assert ("." + e)[1..] == e;
    assert Split("." + e, '.') == [""] + Split(e, '.');
  }

  /** A last path component without any dot has the empty extension. */
  lemma ExtensionWithoutDot(fname: string)
    requires '.' !in fname[LastIndexOf(fname, '/') + 1..]
    ensures Extension(fname) == ""
  {
    var sepIndex := LastIndexOf(fname, '/');
    var dotIndex := LastIndexOf(fname, '.');
    assert forall k :: sepIndex < k < |fname| ==> fname[k] == fname[sepIndex + 1..][k - sepIndex - 1];
    assert dotIndex <= sepIndex;
    assert SplitExt(fname).1 == "";
    assert Split("", '.') == [""];
  }

  /** A hidden file (a last component that is one dot and a dot-free name) has the empty extension. */
  lemma ExtensionOfHidden(dir: string, e: string)
    requires dir == [] || dir[|dir| - 1] == '/'
    requires '.' !in e && '/' !in e
    ensures Extension(dir + "." + e) == ""
  {
    var p := dir + "." + e;
    DottedLastDot(dir, e);
    DottedLastSlash(dir, e);
    assert LastIndexOf(dir, '/') == |dir| - 1;
    assert !HasNonDot(p, |dir|, |dir|);
    assert SplitExt(p).1 == "";
    assert Split("", '.') == [""];
  }
}
