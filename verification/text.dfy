/**
 * The string operations of ECMAScript that the HL7 parser relies on:
 * `trim`, `split`, `Array.prototype.join`, `startsWith`, `charAt` and
 * `replaceAll`, over strings of characters.
 */
module Text {

  /** The code points `String.prototype.trim` removes: ECMAScript WhiteSpace and LineTerminator. */
  predicate IsWhitespace(c: char) {
    c == '\t' || c == '\n' || c == '\U{B}' || c == '\U{C}' || c == '\r' || c == ' '
    || c == '\U{A0}' || c == '\U{1680}' || ('\U{2000}' <= c <= '\U{200A}')
    || c == '\U{2028}' || c == '\U{2029}' || c == '\U{202F}' || c == '\U{205F}'
    || c == '\U{3000}' || c == '\U{FEFF}'
  }

  predicate AllWhitespace(s: string) {
    forall k :: 0 <= k < |s| ==> IsWhitespace(s[k])
  }

  /** `s.startsWith(prefix)`: `s` is at least as long and agrees with `prefix` position by position. */
  predicate StartsWith(s: string, prefix: string): (r: bool)
    ensures r <==> |prefix| <= |s| && forall i :: 0 <= i < |prefix| ==> s[i] == prefix[i]
  {
    |prefix| <= |s| && s[..|prefix|] == prefix
  }

  /** `sub` occurs somewhere in `s`. */
  predicate Contains(s: string, sub: string) {
    exists k :: 0 <= k <= |s| && StartsWith(s[k..], sub)
  }

  /** `s.charAt(i)`: the one-character string at `i`, or the empty string past the end. */
  function CharAt(s: string, i: nat): (r: string)
    ensures |r| <= 1
    ensures r == [] <==> |s| <= i
    ensures r != [] ==> r[0] == s[i]
  {
    if i < |s| then [s[i]] else []
  }

  // ---------------------------------------------------------------- trim

  /** Drops the leading whitespace: what is left is a suffix of `s` that starts with no whitespace. */
  function TrimStart(s: string): (r: string)
    ensures |r| <= |s| && r == s[|s| - |r|..]
    ensures AllWhitespace(s[..|s| - |r|])
    ensures r == [] || !IsWhitespace(r[0])
    decreases |s|
  {
    if |s| > 0 && IsWhitespace(s[0]) then TrimStart(s[1..]) else s
  }

  /** Drops the trailing whitespace: what is left is a prefix of `s` that ends with no whitespace. */
  function TrimEnd(s: string): (r: string)
    ensures |r| <= |s| && r == s[..|r|]
    ensures AllWhitespace(s[|r|..])
    ensures r == [] || !IsWhitespace(r[|r| - 1])
    decreases |s|
  {
    if |s| > 0 && IsWhitespace(s[|s| - 1]) then TrimEnd(s[..|s| - 1]) else s
  }

  /**
   * `s.trim()`: it is empty exactly when `s` is all whitespace, and otherwise
   * starts and ends with a character that is not whitespace.
   */
  function Trim(s: string): (r: string)
    ensures r == [] || (!IsWhitespace(r[0]) && !IsWhitespace(r[|r| - 1]))
    ensures r == [] <==> AllWhitespace(s)
  {
    var t := TrimStart(s);
    assert s == s[..|s| - |t|] + t;
    TrimEnd(t)
  }

  /** `r` is the infix of `s` at offset `i`, with only whitespace around it. */
  predicate InfixWithin(s: string, r: string, i: nat) {
    i + |r| <= |s| && r == s[i..i + |r|] && AllWhitespace(s[..i]) && AllWhitespace(s[i + |r|..])
  }

  /** What `Trim` removes is whitespace at the two ends: the result is an infix of `s`. */
  lemma TrimIsInfix(s: string)
    ensures exists i: nat :: InfixWithin(s, Trim(s), i)
  {
    var t := TrimStart(s);
    var r := TrimEnd(t);
    var i := |s| - |t|;
    assert r == s[i..i + |r|];
    assert s[i + |r|..] == t[|r|..];
    assert Trim(s) == r;
    assert InfixWithin(s, r, i);
  }

  // ---------------------------------------------------------------- split and join

  /** One single-character string per character of `s`. */
  function Chars(s: string): (r: seq<string>)
    ensures |r| == |s|
    ensures forall i :: 0 <= i < |s| ==> r[i] == [s[i]]
  {
    seq(|s|, i requires 0 <= i < |s| => [s[i]])
  }

  /**
   * `s.split(sep)` for a non-empty separator: the pieces between the leftmost
   * non-overlapping occurrences of `sep`. The first piece is a prefix of `s`.
   */
  function SplitOn(s: string, sep: string): (r: seq<string>)
    requires sep != []
    ensures |r| > 0
    ensures StartsWith(s, r[0])
    decreases |s|
  {
    if StartsWith(s, sep) then [[]] + SplitOn(s[|sep|..], sep)
    else if s == [] then [[]]
    else
      var rest := SplitOn(s[1..], sep);
      [[s[0]] + rest[0]] + rest[1..]
  }

  /**
   * `s.split(sep)`: with an empty separator, one piece per character (none at
   * all for the empty string); otherwise `SplitOn`.
   */
  function Split(s: string, sep: string): (r: seq<string>)
    ensures r == [] <==> sep == [] && s == []
    ensures r != [] ==> StartsWith(s, r[0])
    ensures sep == [] ==> |r| == |s| && forall i :: 0 <= i < |s| ==> r[i] == [s[i]]
  {
    if sep == [] then Chars(s) else SplitOn(s, sep)
  }

  /** `parts.join(sep)` */
  function Join(parts: seq<string>, sep: string): string
  {
    if |parts| == 0 then []
    else if |parts| == 1 then parts[0]
    else parts[0] + sep + Join(parts[1..], sep)
  }

  /**
   * `s.replaceAll(pattern, replacement)` with a replacement taken literally:
   * every leftmost non-overlapping occurrence of a non-empty pattern is
   * replaced; an empty pattern matches before every character and at the end.
   */
  function ReplaceAll(s: string, pattern: string, replacement: string): (r: string)
    ensures pattern == [] ==> |r| == |s| + (|s| + 1) * |replacement|
    ensures pattern != [] && replacement == pattern ==> r == s
  {
    if pattern == [] then Interleave(s, replacement)
    else
      JoinSplitOn(s, pattern);
      Join(SplitOn(s, pattern), replacement)
  }

  /** `replacement` before every character of `s` and once more at the end. */
  function Interleave(s: string, replacement: string): (r: string)
    ensures |r| == |s| + (|s| + 1) * |replacement|
    decreases |s|
  {
    if s == [] then replacement
    else replacement + [s[0]] + Interleave(s[1..], replacement)
  }

  /** The reference definition of a one-character replacement: position by position. */
  function Substitute(s: string, from: char, to: char): (r: string)
  {
    seq(|s|, i requires 0 <= i < |s| => if s[i] == from then to else s[i])
  }

  // ---------------------------------------------------------------- lemmas

  /** Gluing a prefix onto the first piece glues it onto the joined text. */
  lemma JoinGlue(p: string, parts: seq<string>, sep: string)
    requires |parts| > 0
    ensures Join([p + parts[0]] + parts[1..], sep) == p + Join(parts, sep)
  {
  }

  /** The joined text ends with the last piece. */
  lemma {:induction false} JoinEndsWithLast(parts: seq<string>, sep: string)
    requires |parts| > 0
    ensures |parts[|parts| - 1]| <= |Join(parts, sep)|
    ensures Join(parts, sep)[|Join(parts, sep)| - |parts[|parts| - 1]|..] == parts[|parts| - 1]
  {
    if |parts| > 1 {
      JoinEndsWithLast(parts[1..], sep);
    }
  }

  lemma {:induction false} JoinChars(s: string)
    ensures Join(Chars(s), []) == s
    decreases |s|
  {
    if |s| > 1 {
      JoinChars(s[1..]);
      assert Chars(s)[1..] == Chars(s[1..]);
      assert s == [s[0]] + s[1..];
    }
  }

  lemma {:induction false} JoinSplitOn(s: string, sep: string)
    requires sep != []
    ensures Join(SplitOn(s, sep), sep) == s
    decreases |s|
  {
    if StartsWith(s, sep) {
      var rest := SplitOn(s[|sep|..], sep);
      JoinSplitOn(s[|sep|..], sep);
      assert ([[]] + rest)[1..] == rest;
      assert s == sep + s[|sep|..];
    } else if s == [] {
    } else {
      var rest := SplitOn(s[1..], sep);
      JoinSplitOn(s[1..], sep);
      JoinGlue([s[0]], rest, sep);
      assert s == [s[0]] + s[1..];
    }
  }

  /** Joining the pieces of a split with the same separator gives back the text, for every separator. */
  lemma {:induction false} JoinSplit(s: string, sep: string)
    ensures Join(Split(s, sep), sep) == s
  {
    if sep == [] {
      JoinChars(s);
    } else {
      JoinSplitOn(s, sep);
    }
  }

  lemma EmptyAvoids(sep: string)
    requires sep != []
    ensures !Contains([], sep)
  {
  }

  lemma {:induction false} SplitOnAvoidsSeparator(s: string, sep: string)
    requires sep != []
    ensures forall f :: f in SplitOn(s, sep) ==> !Contains(f, sep)
    decreases |s|
  {
    if StartsWith(s, sep) {
      SplitOnAvoidsSeparator(s[|sep|..], sep);
      var rest := SplitOn(s[|sep|..], sep);
      EmptyAvoids(sep);
      assert forall f :: f in [[]] + rest ==> f == [] || f in rest;
    } else if s == [] {
      EmptyAvoids(sep);
    } else {
      SplitOnAvoidsSeparator(s[1..], sep);
      var rest := SplitOn(s[1..], sep);
      var first := [s[0]] + rest[0];
      assert !Contains(first, sep) by {
        assert rest[0] in rest;
        forall k | 0 <= k <= |first| ensures !StartsWith(first[k..], sep) {
          if k == 0 {
            if |sep| <= |first| {
              assert first[..|sep|] == s[..|sep|];
            }
          } else {
            assert first[k..] == rest[0][k - 1..];
          }
        }
      }
      assert forall f :: f in [first] + rest[1..] ==> f == first || f in rest;
    }
  }

  /** No piece of a split contains the (non-empty) separator. */
  lemma SplitAvoidsSeparator(s: string, sep: string)
    requires sep != []
    ensures forall f :: f in Split(s, sep) ==> !Contains(f, sep)
  {
    SplitOnAvoidsSeparator(s, sep);
  }

  /** For a one-character text, containing it is containing the character. */
  lemma ContainsChar(f: string, c: char)
    ensures Contains(f, [c]) <==> c in f
  {
    if c in f {
      var k :| 0 <= k < |f| && f[k] == c;
      assert StartsWith(f[k..], [c]);
    }
    if Contains(f, [c]) {
      var k :| 0 <= k <= |f| && StartsWith(f[k..], [c]);
      assert f[k] == c;
    }
  }

  /** Splitting on one character: no piece holds it, and there is one piece more than it has occurrences. */
  lemma {:induction false} SplitOnChar(s: string, c: char)
    ensures forall f :: f in Split(s, [c]) ==> c !in f
    ensures |Split(s, [c])| == multiset(s)[c] + 1
    decreases |s|
  {
    SplitAvoidsSeparator(s, [c]);
    forall f | f in Split(s, [c]) ensures c !in f {
      ContainsChar(f, c);
    }
    if s != [] {
      SplitOnChar(s[1..], c);
      assert s == [s[0]] + s[1..];
      assert multiset(s) == multiset{s[0]} + multiset(s[1..]);
    }
  }

  /** Text without the separator splits into itself alone. */
  lemma {:induction false} SplitWithoutChar(p: string, c: char)
    requires c !in p
    ensures SplitOn(p, [c]) == [p]
    decreases |p|
  {
    if p != [] {
      SplitWithoutChar(p[1..], c);
      assert p == [p[0]] + p[1..];
    }
  }

  /** The first occurrence of the separator closes the first piece. */
  lemma {:induction false} SplitAtFirstChar(p: string, c: char, rest: string)
    requires c !in p
    ensures SplitOn(p + [c] + rest, [c]) == [p] + SplitOn(rest, [c])
    decreases |p|
  {
    var s := p + [c] + rest;
    if p == [] {
      assert s[1..] == rest;
    } else {
      SplitAtFirstChar(p[1..], c, rest);
      assert s[1..] == p[1..] + [c] + rest;
      assert p == [p[0]] + p[1..];
    }
  }

  /** Splitting pieces that avoid a one-character separator after joining them gives the pieces back. */
  lemma {:induction false} SplitJoin(parts: seq<string>, c: char)
    requires |parts| > 0
    requires forall p :: p in parts ==> c !in p
    ensures Split(Join(parts, [c]), [c]) == parts
    decreases |parts|
  {
    if |parts| == 1 {
      SplitWithoutChar(parts[0], c);
    } else {
      SplitJoin(parts[1..], c);
      SplitAtFirstChar(parts[0], c, Join(parts[1..], [c]));
      assert parts == [parts[0]] + parts[1..];
    }
  }

  /** Replacing one character by another is the position-by-position substitution. */
  lemma {:induction false} ReplaceAllChar(s: string, from: char, to: char)
    ensures ReplaceAll(s, [from], [to]) == Substitute(s, from, to)
    decreases |s|
  {
    if s != [] {
      ReplaceAllChar(s[1..], from, to);
      var rest := SplitOn(s[1..], [from]);
      assert Substitute(s, from, to) == [if s[0] == from then to else s[0]] + Substitute(s[1..], from, to);
      if s[0] == from {
        assert StartsWith(s, [from]);
        assert ([[]] + rest)[1..] == rest;
      } else {
        JoinGlue([s[0]], rest, [to]);
      }
    }
  }

  /** What `Substitute` promises: same length, the replaced character gone, everything else kept. */
  lemma SubstituteSpec(s: string, from: char, to: char)
    requires from != to
    ensures |Substitute(s, from, to)| == |s|
    ensures from !in Substitute(s, from, to)
    ensures forall i :: 0 <= i < |s| ==>
              Substitute(s, from, to)[i] == (if s[i] == from then to else s[i])
  {
  }
}
