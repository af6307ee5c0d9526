/**
 * The string operations the pages rely on, written out: `String.prototype.trim`,
 * `String.prototype.split` on a one-character separator, its inverse `join`, and
 * `toLowerCase` restricted to ASCII letters.
 */
module Text {
  import opened Common

  /** The characters `trim` removes: ECMAScript WhiteSpace and LineTerminator. */
  const WhitespaceChars: seq<char> := [
    ' ', '\t', '\n', '\r', '\U{000B}', '\U{000C}', '\U{00A0}', '\U{1680}',
    '\U{2000}', '\U{2001}', '\U{2002}', '\U{2003}', '\U{2004}', '\U{2005}',
    '\U{2006}', '\U{2007}', '\U{2008}', '\U{2009}', '\U{200A}',
    '\U{2028}', '\U{2029}', '\U{202F}', '\U{205F}', '\U{3000}', '\U{FEFF}'
  ]

  /** `c` is one of `cs`, looked up one entry at a time. */
  predicate Listed(c: char, cs: seq<char>)
  {
    cs != [] && (cs[0] == c || Listed(c, cs[1..]))
  }

  predicate IsWhitespace(c: char)
  {
    Listed(c, WhitespaceChars)
  }

  /** The lookup agrees with sequence membership. */
  lemma {:induction false} ListedIsIn(c: char, cs: seq<char>)
    ensures Listed(c, cs) <==> c in cs
  {
    if cs != [] {
      ListedIsIn(c, cs[1..]);
      assert cs == [cs[0]] + cs[1..];
    }
  }

  /** Every character of `s` is whitespace, checked from the front. */
  predicate AllWhitespace(s: string)
  {
    s == [] || (IsWhitespace(s[0]) && AllWhitespace(s[1..]))
  }

  /** A concatenation is all whitespace exactly when both parts are. */
  lemma {:induction false} AllWhitespaceAppend(u: string, v: string)
    ensures AllWhitespace(u + v) <==> AllWhitespace(u) && AllWhitespace(v)
  {
    if u == [] {
      assert u + v == v;
    } else {
      AllWhitespaceAppend(u[1..], v);
      assert (u + v)[0] == u[0];
      assert (u + v)[1..] == u[1..] + v;
    }
  }

  /** Neither end of `s` is whitespace (the shape of every value `trim` returns). */
  predicate Trimmed(s: string)
  {
    s == [] || (!IsWhitespace(s[0]) && !IsWhitespace(s[|s| - 1]))
  }

  /** Drops the leading whitespace: what is left is a suffix of `s` preceded only by whitespace. */
  function TrimStart(s: string): (r: string)
    ensures |r| <= |s| && r == s[|s| - |r|..]
    ensures AllWhitespace(s[..|s| - |r|])
    ensures r == [] || !IsWhitespace(r[0])
  {
    if s != [] && IsWhitespace(s[0]) then
      var r := TrimStart(s[1..]);
      assert s[..|s| - |r|][1..] == s[1..][..|s| - 1 - |r|];
      r
    else
      s
  }

  /** Drops the trailing whitespace: what is left is a prefix of `s` followed only by whitespace. */
  function TrimEnd(s: string): (r: string)
    ensures |r| <= |s| && r == s[..|r|]
    ensures AllWhitespace(s[|r|..])
    ensures r == [] || !IsWhitespace(r[|r| - 1])
  {
    if s != [] && IsWhitespace(s[|s| - 1]) then
      var init := s[..|s| - 1];
      var r := TrimEnd(init);
      assert s[|r|..] == init[|r|..] + [s[|s| - 1]];
      AllWhitespaceAppend(init[|r|..], [s[|s| - 1]]);
      r
    else
      s
  }

  /**
   * `s.trim()`: the slice of `s` between its leading and its trailing whitespace.
   * It is empty exactly when `s` is all whitespace (so `!s.trim()` tests that).
   */
  function Trim(s: string): (r: string)
    ensures |r| <= |s|
  {
    TrimEnd(TrimStart(s))
  }

  /** Neither end of `s.trim()` is whitespace. */
  lemma TrimIsTrimmed(s: string)
    ensures Trimmed(Trim(s))
  {
    var t := TrimStart(s);
    var r := TrimEnd(t);
    if r != [] {
      assert r[0] == t[0];
    }
  }

  /** `s.trim()` is empty exactly when `s` is all whitespace. */
  lemma TrimEmptyIff(s: string)
    ensures Trim(s) == [] <==> AllWhitespace(s)
  {
    TrimStartKeepsBlankness(s);
    TrimEndEmptyIff(TrimStart(s));
  }

  /** Dropping leading whitespace does not change whether a string is all whitespace. */
  lemma TrimStartKeepsBlankness(s: string)
    ensures AllWhitespace(TrimStart(s)) <==> AllWhitespace(s)
  {
    var t := TrimStart(s);
    var k := |s| - |t|;
    PrefixThenSuffix(s, k);
    AllWhitespaceAppend(s[..k], t);
  }

  /** On a string that does not start with whitespace, `TrimEnd` leaves nothing only when there was nothing. */
  lemma TrimEndEmptyIff(t: string)
    requires t == [] || !IsWhitespace(t[0])
    ensures TrimEnd(t) == [] <==> AllWhitespace(t)
  {
    if t != [] {
      assert t[0..] == t;
    }
  }

  /** Trimming never brings in a character that was not there. */
  lemma TrimKeepsCharacters(s: string)
    ensures forall c :: c in Trim(s) ==> c in s
  {
    var t := TrimStart(s);
    var r := TrimEnd(t);
    assert Trim(s) == r;
    forall c | c in r ensures c in s {
      var i :| 0 <= i < |r| && r[i] == c;
      assert t[i] == c;
      assert s[|s| - |t| + i] == c;
    }
  }

  /** Trimming a value that is already trimmed changes nothing. */
  lemma TrimOfTrimmed(s: string)
    requires Trimmed(s)
    ensures Trim(s) == s
  {
    assert TrimStart(s) == s;
    assert TrimEnd(s) == s;
  }

  /** `trim` is idempotent. */
  lemma TrimIdempotent(s: string)
    ensures Trim(Trim(s)) == Trim(s)
  {
    TrimIsTrimmed(s);
    TrimOfTrimmed(Trim(s));
  }

  /** Number of occurrences of `c` in `s`. */
  function Occurrences(s: string, c: char): nat
  {
    if s == [] then 0 else (if s[0] == c then 1 else 0) + Occurrences(s[1..], c)
  }

  /**
   * `s.split(sep)` for a one-character separator: the pieces between separators,
   * from left to right. The empty string splits into one empty piece.
   */
  function Split(s: string, sep: char): (parts: seq<string>)
    ensures |parts| == Occurrences(s, sep) + 1
  {
    if s == [] then [[]]
    else
      var rest := Split(s[1..], sep);
      if s[0] == sep then [[]] + rest else [[s[0]] + rest[0]] + rest[1..]
  }

  /** `parts.join(sep)`: the inverse of `Split`. */
  function Join(parts: seq<string>, sep: char): string
    requires parts != []
  {
    if |parts| == 1 then parts[0] else parts[0] + [sep] + Join(parts[1..], sep)
  }

  /** No piece of a split holds the separator. */
  lemma {:induction false} SplitPiecesLackSeparator(s: string, sep: char)
    ensures forall i :: 0 <= i < |Split(s, sep)| ==> sep !in Split(s, sep)[i]
  {
    if s != [] {
      SplitPiecesLackSeparator(s[1..], sep);
      var rest := Split(s[1..], sep);
      if s[0] != sep {
        assert sep !in [s[0]] + rest[0];
      }
    }
  }

  /** One step of `Join`. */
  lemma JoinCons(parts: seq<string>, sep: char)
    requires parts != []
    ensures Join(parts, sep) == if |parts| == 1 then parts[0] else parts[0] + [sep] + Join(parts[1..], sep)
  {
  }

  /** Joining the pieces of a split gives back the original string. */
  lemma {:induction false} JoinSplit(s: string, sep: char)
    ensures Join(Split(s, sep), sep) == s
  {
    if s != [] {
      var rest := Split(s[1..], sep);
      JoinSplit(s[1..], sep);
      if s[0] == sep {
        assert Split(s, sep)[1..] == rest;
      } else {
        var parts := Split(s, sep);
        assert parts[0] == [s[0]] + rest[0];
        assert parts[1..] == rest[1..];
        if |rest| == 1 {
          assert Join(rest, sep) == rest[0];
        } else {
          assert Join(rest, sep) == rest[0] + [sep] + Join(rest[1..], sep);
        }
      }
    }
  }

  /** Splitting a join of separator-free pieces gives back the pieces. */
  lemma {:induction false} SplitJoin(parts: seq<string>, sep: char)
    requires parts != []
    requires forall i :: 0 <= i < |parts| ==> sep !in parts[i]
    ensures Split(Join(parts, sep), sep) == parts
  {
    if |parts| == 1 {
      SplitNoSeparator(parts[0], sep);
    } else {
      SplitJoin(parts[1..], sep);
      SplitAround(parts[0], Join(parts[1..], sep), sep);
      SplitNoSeparator(parts[0], sep);
      assert parts == [parts[0]] + parts[1..];
    }
  }

  /** A string without the separator is a single piece. */
  lemma {:induction false} SplitNoSeparator(s: string, sep: char)
    requires sep !in s
    ensures Split(s, sep) == [s]
  {
    if s != [] {
      SplitNoSeparator(s[1..], sep);
      assert s[0] != sep;
      assert [s[0]] + s[1..] == s;
    }
  }

  /**
   * Splitting is compositional at a separator: the pieces of `a + sep + b` are the
   * pieces of `a` followed by the pieces of `b`, so splitting keeps left-to-right order.
   */
  lemma {:induction false} SplitAround(a: string, b: string, sep: char)
    ensures Split(a + [sep] + b, sep) == Split(a, sep) + Split(b, sep)
  {
    if a == [] {
      assert a + [sep] + b == [sep] + b;
      SplitCons(sep, b, sep);
    } else {
      var c, a' := a[0], a[1..];
      var x := a' + [sep] + b;
      assert a + [sep] + b == [c] + x;
      assert a == [c] + a';
      SplitCons(c, x, sep);
      SplitAround(a', b, sep);
      AddFrontAppend(c, c == sep, Split(a', sep), Split(b, sep));
      SplitCons(c, a', sep);
    }
  }

  /**
   * The pieces of a string whose first character is `x`, given the pieces of the rest:
   * a separator opens a new empty first piece, any other character extends it.
   */
  function AddFront<T>(x: T, isSep: bool, rest: seq<seq<T>>): seq<seq<T>>
    requires rest != []
  {
    if isSep then [[]] + rest else [[x] + rest[0]] + rest[1..]
  }

  /** Adding a character at the front commutes with appending further pieces. */
  lemma AddFrontAppend<T>(x: T, isSep: bool, p: seq<seq<T>>, q: seq<seq<T>>)
    requires p != []
    ensures AddFront(x, isSep, p + q) == AddFront(x, isSep, p) + q
  {
    assert (p + q)[0] == p[0];
    assert (p + q)[1..] == p[1..] + q;
  }

  /** One step of `Split`, for a string given as its first character and the rest. */
  lemma SplitCons(c: char, t: string, sep: char)
    ensures Split([c] + t, sep) == AddFront(c, c == sep, Split(t, sep))
  {
    assert ([c] + t)[1..] == t;
  }

  /** ASCII lower-casing of one character; every other character is left alone. */
  function LowerChar(c: char): char
  {
    if 'A' <= c <= 'Z' then (c as int + 32) as char else c
  }

  /** `s.toLowerCase()` on the ASCII letters of `s`. */
  function ToLower(s: string): (r: string)
    ensures |r| == |s|
    ensures forall i :: 0 <= i < |s| ==> r[i] == LowerChar(s[i])
  {
    if s == [] then [] else [LowerChar(s[0])] + ToLower(s[1..])
  }

  /**
   * `a` spells the lower-case word `w` in any mix of ASCII cases: an independent,
   * character-by-character reading of "`a.toLowerCase() === w`".
   */
  predicate EqualsIgnoringCase(a: string, w: string)
  {
    |a| == |w| &&
    forall i :: 0 <= i < |a| ==>
      a[i] == w[i] || ('a' <= w[i] <= 'z' && a[i] as int == w[i] as int - 32)
  }

  /** For a lower-case word `w`, lower-casing `a` yields `w` exactly when `a` spells `w` ignoring case. */
  lemma ToLowerIsEqualsIgnoringCase(a: string, w: string)
    requires forall i :: 0 <= i < |w| ==> !('A' <= w[i] <= 'Z')
    ensures ToLower(a) == w <==> EqualsIgnoringCase(a, w)
  {
    if EqualsIgnoringCase(a, w) {
      assert forall i :: 0 <= i < |a| ==> ToLower(a)[i] == w[i];
    }
    if ToLower(a) == w {
      forall i | 0 <= i < |a|
        ensures a[i] == w[i] || ('a' <= w[i] <= 'z' && a[i] as int == w[i] as int - 32)
      {
        assert w[i] == LowerChar(a[i]);
      }
    }
  }
}
