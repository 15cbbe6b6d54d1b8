/** String helpers shared by the model: the two `trim` flavours (JavaScript
    and Java), JavaScript's `split` on one character, an ASCII-only
    `toLowerCase` and `String.prototype.includes`. */
module Text {

  /** The characters JavaScript's `String.prototype.trim` strips: the
      WhiteSpace and LineTerminator code points of ECMA-262. */
  predicate IsJsSpace(c: char)
  {
    c == '\t' || c == '\n' || c == '\U{B}' || c == '\U{C}' || c == '\r' ||
    c == ' ' || c == '\U{A0}' || c == '\U{1680}' ||
    ('\U{2000}' <= c <= '\U{200A}') ||
    c == '\U{2028}' || c == '\U{2029}' || c == '\U{202F}' || c == '\U{205F}' ||
    c == '\U{3000}' || c == '\U{FEFF}'
  }

  /** The characters Java's `String.trim` strips: every code point up to U+0020. */
  predicate IsJavaSpace(c: char)
  {
    c <= ' '
  }

  /** `s` without its leading characters satisfying `space`. */
  function StripLeft(s: string, space: char -> bool): (r: string)
    ensures |r| <= |s| && r == s[|s| - |r|..]
    ensures r != [] ==> !space(r[0])
    ensures forall k :: 0 <= k < |s| - |r| ==> space(s[k])
  {
    if s == [] || !space(s[0]) then s else StripLeft(s[1..], space)
  }

  /** `s` without its trailing characters satisfying `space`. */
  function StripRight(s: string, space: char -> bool): (r: string)
    ensures |r| <= |s| && r == s[..|r|]
    ensures r != [] ==> !space(r[|r| - 1])
    ensures forall k :: |r| <= k < |s| ==> space(s[k])
  {
    if s == [] || !space(s[|s| - 1]) then s else StripRight(s[..|s| - 1], space)
  }

  function Trim(s: string, space: char -> bool): string
  {
    StripRight(StripLeft(s, space), space)
  }

  function JsTrim(s: string): (r: string)
    ensures |r| <= |s|
    ensures r != [] ==> !IsJsSpace(r[0]) && !IsJsSpace(r[|r| - 1])
  {
    TrimEnds(s, IsJsSpace);
    Trim(s, IsJsSpace)
  }

  function JavaTrim(s: string): (r: string)
    ensures |r| <= |s|
    ensures r != [] ==> r[0] > ' ' && r[|r| - 1] > ' '
  {
    TrimEnds(s, IsJavaSpace);
    Trim(s, IsJavaSpace)
  }

  /** A trimmed string starts and ends with a character that is not a space. */
  lemma TrimEnds(s: string, space: char -> bool)
    ensures Trim(s, space) != [] ==> !space(Trim(s, space)[0]) && !space(Trim(s, space)[|Trim(s, space)| - 1])
  {
    var l := StripLeft(s, space);
    var r := StripRight(l, space);
    if r != [] {
      assert r[0] == l[0];
    }
  }

  /** A trimmed string is the contiguous piece of the input that begins
      after the leading spaces. */
  lemma TrimSlice(s: string, space: char -> bool)
    ensures Lead(s, space) + |Trim(s, space)| <= |s|
    ensures Trim(s, space) == s[Lead(s, space)..Lead(s, space) + |Trim(s, space)|]
  {
    var l := StripLeft(s, space);
    var r := StripRight(l, space);
    PrefixOfSuffix(s, |s| - |l|, |r|);
  }

  lemma PrefixOfSuffix(s: string, i: nat, n: nat)
    requires i + n <= |s|
    ensures s[i..][..n] == s[i..i + n]
  {
  }

  /** Everything `Trim` cuts off, on either side, is space. */
  lemma TrimCutsOnlySpace(s: string, space: char -> bool)
    ensures forall k :: 0 <= k < Lead(s, space) ==> space(s[k])
    ensures forall k :: Lead(s, space) + |Trim(s, space)| <= k < |s| ==> space(s[k])
  {
    var l := StripLeft(s, space);
    var r := StripRight(l, space);
    var i := |s| - |l|;
    assert l == s[i..];
    forall k | i + |r| <= k < |s|
      ensures space(s[k])
    {
      assert s[k] == l[k - i];
    }
  }

  /** How many leading spaces `Trim` removes. */
  function Lead(s: string, space: char -> bool): nat
  {
    |s| - |StripLeft(s, space)|
  }

  /** Trimming twice is trimming once. */
  lemma TrimIdempotent(s: string, space: char -> bool)
    ensures Trim(Trim(s, space), space) == Trim(s, space)
  {
    var r := Trim(s, space);
    TrimEnds(s, space);
    if r != [] {
      assert StripLeft(r, space) == r;
      assert StripRight(r, space) == r;
    }
  }

  /** JavaScript `s.split(sep)` for a one-character separator: the pieces
      between consecutive separators, always at least one. */
  function Split(s: string, sep: char): (pieces: seq<string>)
    ensures |pieces| >= 1
    ensures forall k :: 0 <= k < |pieces| ==> sep !in pieces[k]
    ensures Join(pieces, sep) == s
  {
    if s == [] then [""]
    else
      var rest := Split(s[1..], sep);
      if s[0] == sep then [""] + rest
      else [[s[0]] + rest[0]] + rest[1..]
  }

  /** The pieces glued back together with `sep` between neighbours. */
  function Join(pieces: seq<string>, sep: char): string
  {
    if |pieces| <= 1 then (if pieces == [] then "" else pieces[0])
    else pieces[0] + [sep] + Join(pieces[1..], sep)
  }

  /** Splitting what was joined gives back the pieces, provided none
      contains the separator: `Split` and `Join` are inverse. */
  lemma {:induction false} SplitJoin(pieces: seq<string>, sep: char)
    requires |pieces| >= 1
    requires forall k :: 0 <= k < |pieces| ==> sep !in pieces[k]
    ensures Split(Join(pieces, sep), sep) == pieces
  {
    if |pieces| == 1 {
      SplitNoSep(pieces[0], sep);
    } else {
      SplitJoin(pieces[1..], sep);
      SplitPrefix(pieces[0], Join(pieces[1..], sep), sep);
    }
  }

  lemma {:induction false} SplitNoSep(s: string, sep: char)
    requires sep !in s
    ensures Split(s, sep) == [s]
  {
    if s != [] {
      SplitNoSep(s[1..], sep);
    }
  }

  /** A piece without the separator, then the separator, then `t`. */
  lemma {:induction false} SplitPrefix(p: string, t: string, sep: char)
    requires sep !in p
    ensures Split(p + [sep] + t, sep) == [p] + Split(t, sep)
  {
    if p == [] {
      assert p + [sep] + t == [sep] + t;
      assert ([sep] + t)[1..] == t;
    } else {
      assert (p + [sep] + t)[1..] == p[1..] + [sep] + t;
      SplitPrefix(p[1..], t, sep);
      assert [p[0]] + p[1..] == p;
    }
  }

  /** ASCII-only `toLowerCase`. */
  function LowerChar(c: char): char
  {
    if 'A' <= c <= 'Z' then (c as int + 32) as char else c
  }

  /** The result has no uppercase ASCII letter; every other character is
      kept, and each uppercase letter becomes the lowercase letter at the
      same place in the alphabet. */
  function Lower(s: string): (r: string)
    ensures |r| == |s|
    ensures forall k :: 0 <= k < |s| ==> r[k] == LowerChar(s[k])
    ensures forall k :: 0 <= k < |r| ==> !('A' <= r[k] <= 'Z')
    ensures forall k :: 0 <= k < |s| && !('A' <= s[k] <= 'Z') ==> r[k] == s[k]
    ensures forall k :: 0 <= k < |s| && 'A' <= s[k] <= 'Z' ==>
      'a' <= r[k] <= 'z' && r[k] as int - 'a' as int == s[k] as int - 'A' as int
  {
    seq(|s|, k requires 0 <= k < |s| => LowerChar(s[k]))
  }

  /** Lowercasing a lowercased string changes nothing. */
  lemma LowerIdempotent(s: string)
    ensures Lower(Lower(s)) == Lower(s)
  {
  }

  predicate StartsWith(s: string, prefix: string)
  {
    |prefix| <= |s| && s[..|prefix|] == prefix
  }

  /** JavaScript `s.includes(sub)`: `sub` occurs somewhere in `s`. */
  predicate Includes(s: string, sub: string)
    ensures Includes(s, sub) ==> |sub| <= |s|
    decreases |s|
  {
    StartsWith(s, sub) || (s != [] && Includes(s[1..], sub))
  }

  /** `sub` occurs in `s` starting at index `i`. */
  predicate OccursAt(s: string, sub: string, i: int)
  {
    0 <= i <= |s| - |sub| && s[i..i + |sub|] == sub
  }

  /** `Includes` is exactly "occurs at some index". */
  lemma {:induction false} IncludesAt(s: string, sub: string)
    ensures Includes(s, sub) <==> exists i :: OccursAt(s, sub, i)
  {
    if Includes(s, sub) {
      if StartsWith(s, sub) {
        assert OccursAt(s, sub, 0);
      } else {
        IncludesAt(s[1..], sub);
        var i :| OccursAt(s[1..], sub, i);
        assert s[1..][i..i + |sub|] == s[i + 1..i + 1 + |sub|];
        assert OccursAt(s, sub, i + 1);
      }
    }
    if exists i :: OccursAt(s, sub, i) {
      var i :| OccursAt(s, sub, i);
      if i == 0 {
        assert StartsWith(s, sub);
      } else {
        assert s[1..][i - 1..i - 1 + |sub|] == s[i..i + |sub|];
        assert OccursAt(s[1..], sub, i - 1);
        IncludesAt(s[1..], sub);
      }
    }
  }

  /** Every string includes the empty string. */
  lemma IncludesEmpty(s: string)
    ensures Includes(s, "")
  {
    assert StartsWith(s, "");
  }
}
