/**
 * The JavaScript string operations the scrapers rely on, over `string` (one `char` per Unicode
 * scalar value): `trim`, `split` on a one-character separator, `replace` of the first
 * occurrence of a character, global `replace` of a character class or a literal, `/\s+/g`,
 * `/\bde\b/g` and `includes`.
 */
module JsString {
  import Seqs

  /** ECMAScript WhiteSpace and LineTerminator code points: what `trim` strips and `\s` matches. */
  predicate IsWhiteSpace(c: char) {
    || c == '\t' || c == '\n' || c == '\U{000B}' || c == '\U{000C}' || c == '\r' || c == ' '
    || c == '\U{00A0}' || c == '\U{1680}' || ('\U{2000}' <= c <= '\U{200A}')
    || c == '\U{2028}' || c == '\U{2029}' || c == '\U{202F}' || c == '\U{205F}'
    || c == '\U{3000}' || c == '\U{FEFF}'
  }

  /** A string that `trim` leaves alone: no white space at either end. */
  predicate IsTrimmed(s: string) {
    s == [] || (!IsWhiteSpace(s[0]) && !IsWhiteSpace(s[|s| - 1]))
  }

  /** `trimStart`: the suffix left after dropping leading white space. */
  function TrimStart(s: string): (r: string)
    ensures |r| <= |s| && r == s[|s| - |r|..]
    ensures forall k :: 0 <= k < |s| - |r| ==> IsWhiteSpace(s[k])
    ensures r == [] || !IsWhiteSpace(r[0])
  {
    if s != [] && IsWhiteSpace(s[0]) then TrimStart(s[1..]) else s
  }

  /** `trimEnd`: the prefix left after dropping trailing white space. */
  function TrimEnd(s: string): (r: string)
    ensures |r| <= |s| && r == s[..|r|]
    ensures forall k :: |r| <= k < |s| ==> IsWhiteSpace(s[k])
    ensures r == [] || !IsWhiteSpace(r[|r| - 1])
  {
    if s != [] && IsWhiteSpace(s[|s| - 1]) then TrimEnd(s[..|s| - 1]) else s
  }

  /** `String.prototype.trim`. */
  function Trim(s: string): (r: string)
    ensures IsTrimmed(r)
    ensures |r| <= |s|
  {
    var t := TrimStart(s);
    var r := TrimEnd(t);
    assert r != [] ==> r[0] == t[0];
    r
  }

  /** `trim` keeps a slice of its input: the one that starts where `trimStart` starts it. */
  lemma TrimIsSlice(s: string)
    ensures |s| - |TrimStart(s)| + |Trim(s)| <= |s|
    ensures Trim(s) == s[|s| - |TrimStart(s)|..|s| - |TrimStart(s)| + |Trim(s)|]
  {
    var t := TrimStart(s);
    var r := TrimEnd(t);
    assert Trim(s) == r;
    Seqs.PrefixOfSuffix(s, |s| - |t|, |r|);
  }

  /** Character by character, `trim` keeps the input from where `trimStart` starts it. */
  lemma TrimChars(s: string)
    ensures |s| - |TrimStart(s)| + |Trim(s)| <= |s|
    ensures forall k :: 0 <= k < |Trim(s)| ==> Trim(s)[k] == s[|s| - |TrimStart(s)| + k]
  {
    TrimIsSlice(s);
  }

  /** `trim` never adds a character. */
  lemma TrimKeepsAbsent(s: string, c: char)
    requires c !in s
    ensures c !in Trim(s)
  {
    TrimIsSlice(s);
  }

  /** A trimmed string is its own `trim`. */
  lemma TrimOfTrimmed(s: string)
    requires IsTrimmed(s)
    ensures Trim(s) == s
  {
  }

  /** `trim` is idempotent. */
  lemma TrimIdempotent(s: string)
    ensures Trim(Trim(s)) == Trim(s)
  {
    TrimOfTrimmed(Trim(s));
  }

  /** A string of white space only trims to the empty string. */
  lemma {:induction false} TrimAllWhiteSpace(s: string)
    requires forall k :: 0 <= k < |s| ==> IsWhiteSpace(s[k])
    ensures Trim(s) == []
  {
    if s != [] {
      TrimAllWhiteSpace(s[1..]);
      assert TrimStart(s) == TrimStart(s[1..]);
    }
  }

  /** The index of the first occurrence of `c` in `s` (`indexOf`). */
  function IndexOf(s: string, c: char): (i: nat)
    requires c in s
    ensures i < |s| && s[i] == c && c !in s[..i]
  {
    if s[0] == c then 0
    else
      var j := IndexOf(s[1..], c);
      assert s[..j + 1] == [s[0]] + s[1..][..j];
      j + 1
  }

  /** `s.replace(c, "")` with a one-character string pattern: only the FIRST `c` is removed. */
  function ReplaceFirst(s: string, c: char): (r: string)
    ensures c !in s ==> r == s
    ensures c in s ==> r == s[..IndexOf(s, c)] + s[IndexOf(s, c) + 1..]
  {
    if s == [] then []
    else if s[0] == c then s[1..]
    else
      var tail := ReplaceFirst(s[1..], c);
      assert c in s ==> c in s[1..] && IndexOf(s, c) == IndexOf(s[1..], c) + 1;
      if c in s then
        var j := IndexOf(s[1..], c);
        assert s[..j + 1] == [s[0]] + s[1..][..j];
        assert s[j + 2..] == s[1..][j + 1..];
        [s[0]] + tail
      else
        [s[0]] + tail
  }

  /** The characters other than `c`. */
  function Differs(c: char): char -> bool {
    d => d != c
  }

  /** `s.replace(/c/g, "")`: every `c` removed, everything else kept in order. */
  function RemoveAll(s: string, c: char): (r: string)
    ensures c !in r
    ensures forall d :: d in r <==> d in s && d != c
  {
    Seqs.Filter(Differs(c), s)
  }

  /** Removing the first `c` takes exactly one `c` out of the multiset of characters, if there is one. */
  lemma {:induction false} ReplaceFirstCounts(s: string, c: char)
    ensures multiset(ReplaceFirst(s, c)) == if c in s then multiset(s) - multiset{c} else multiset(s)
  {
    if s != [] {
      assert s == [s[0]] + s[1..];
      if s[0] != c {
        ReplaceFirstCounts(s[1..], c);
      }
    }
  }

  /** Global removal of `c` keeps every other character's count and leaves no `c`. */
  lemma RemoveAllCounts(s: string, c: char, x: char)
    ensures multiset(RemoveAll(s, c))[x] == if x == c then 0 else multiset(s)[x]
  {
    Seqs.FilterCounts(Differs(c), s, x);
  }

  /** Removing a character that does not occur changes nothing. */
  lemma RemoveAllAbsent(s: string, c: char)
    requires c !in s
    ensures RemoveAll(s, c) == s
  {
    Seqs.FilterKeepsAll(Differs(c), s);
  }

  /** Global removal works piece by piece. */
  lemma RemoveAllAppend(a: string, b: string, c: char)
    ensures RemoveAll(a + b, c) == RemoveAll(a, c) + RemoveAll(b, c)
  {
    Seqs.FilterAppend(Differs(c), a, b);
  }

  /** Removing `c` around one occurrence of `c` that separates two pieces. */
  lemma RemoveAllAcross(x: string, y: string, c: char)
    ensures RemoveAll(x + [c] + y, c) == RemoveAll(x, c) + RemoveAll(y, c)
  {
    var keep := Differs(c);
    Seqs.FilterAppend(keep, x + [c], y);
    Seqs.FilterAppend(keep, x, [c]);
    Seqs.FilterSingle(keep, c);
  }

  /** `s.split(sep)` for a one-character separator: never empty, empty pieces kept. */
  function Split(s: string, sep: char): (pieces: seq<string>)
    ensures |pieces| >= 1
    ensures forall k :: 0 <= k < |pieces| ==> sep !in pieces[k]
  {
    if s == [] then [[]]
    else
      var rest := Split(s[1..], sep);
      if s[0] == sep then [[]] + rest
      else [[s[0]] + rest[0]] + rest[1..]
  }

  /** `pieces.join(sep)`. */
  function Join(pieces: seq<string>, sep: char): string
  {
    if pieces == [] then []
    else if |pieces| == 1 then pieces[0]
    else pieces[0] + [sep] + Join(pieces[1..], sep)
  }

  /** `split` loses nothing: joining the pieces with the separator gives the string back. */
  lemma {:induction false} JoinSplit(s: string, sep: char)
    ensures Join(Split(s, sep), sep) == s
  {
    if s != [] {
      JoinSplit(s[1..], sep);
      var rest := Split(s[1..], sep);
      if s[0] == sep {
        assert Split(s, sep)[1..] == rest;
      } else {
        var ps := Split(s, sep);
        if |rest| > 1 {
          assert ps[1..] == rest[1..];
          assert Join(rest, sep) == rest[0] + [sep] + Join(rest[1..], sep);
        }
        assert s == [s[0]] + s[1..];
      }
    }
  }

  /** A string without the separator splits into itself alone. */
  lemma {:induction false} SplitNoSeparator(s: string, sep: char)
    requires sep !in s
    ensures Split(s, sep) == [s]
  {
    if s != [] {
      SplitNoSeparator(s[1..], sep);
      assert s == [s[0]] + s[1..];
    }
  }

  /** The first separator ends the first piece; splitting goes on behind it. */
  lemma {:induction false} SplitAtFirst(x: string, y: string, sep: char)
    requires sep !in x
    ensures Split(x + [sep] + y, sep) == [x] + Split(y, sep)
  {
    if x != [] {
      SplitAtFirst(x[1..], y, sep);
      assert (x + [sep] + y)[1..] == x[1..] + [sep] + y;
      assert x == [x[0]] + x[1..];
    } else {
      assert x + [sep] + y == [sep] + y;
      assert ([sep] + y)[1..] == y;
    }
  }

  /** One piece more than there are separators. */
  lemma {:induction false} SplitCount(s: string, sep: char)
    ensures |Split(s, sep)| == multiset(s)[sep] + 1
  {
    if s != [] {
      SplitCount(s[1..], sep);
      assert s == [s[0]] + s[1..];
    }
  }

  /** `s.startsWith(pat)`. */
  predicate StartsWith(s: string, pat: string) {
    |pat| <= |s| && s[..|pat|] == pat
  }

  /** `s.includes(pat)`. */
  predicate Contains(s: string, pat: string)
    decreases |s|
  {
    StartsWith(s, pat) || (s != [] && Contains(s[1..], pat))
  }

  /** Text that starts with the pattern contains it. */
  lemma ContainsPrefix(pat: string, rest: string)
    ensures Contains(pat + rest, pat)
  {
    assert (pat + rest)[..|pat|] == pat;
  }

  /** `s.replace(/pat/g, "")` for a literal pattern: occurrences removed left to right, without overlap. */
  function RemoveLiteral(s: string, pat: string): (r: string)
    requires pat != []
    ensures |r| <= |s|
    decreases |s|
  {
    if |s| < |pat| then s
    else if StartsWith(s, pat) then RemoveLiteral(s[|pat|..], pat)
    else [s[0]] + RemoveLiteral(s[1..], pat)
  }

  /** Only deletions: no character is added or occurs more often. */
  lemma {:induction false} RemoveLiteralDeletes(s: string, pat: string)
    requires pat != []
    ensures multiset(RemoveLiteral(s, pat)) <= multiset(s)
    decreases |s|
  {
    if |s| >= |pat| {
      if StartsWith(s, pat) {
        RemoveLiteralDeletes(s[|pat|..], pat);
        assert s == s[..|pat|] + s[|pat|..];
      } else {
        RemoveLiteralDeletes(s[1..], pat);
        assert s == [s[0]] + s[1..];
      }
    }
  }

  /** Text that does not contain the pattern is left alone. */
  lemma {:induction false} RemoveLiteralAbsent(s: string, pat: string)
    requires pat != [] && !Contains(s, pat)
    ensures RemoveLiteral(s, pat) == s
    decreases |s|
  {
    if |s| >= |pat| {
      RemoveLiteralAbsent(s[1..], pat);
      assert s == [s[0]] + s[1..];
    }
  }

  /** Text that contains the pattern loses at least one occurrence. */
  lemma {:induction false} RemoveLiteralShrinks(s: string, pat: string)
    requires pat != [] && Contains(s, pat)
    ensures |RemoveLiteral(s, pat)| + |pat| <= |s|
    decreases |s|
  {
    ContainsFits(s, pat);
    if !StartsWith(s, pat) {
      RemoveLiteralShrinks(s[1..], pat);
    }
  }

  /** An occurrence needs room: a string shorter than the pattern does not contain it. */
  lemma {:induction false} ContainsFits(s: string, pat: string)
    ensures Contains(s, pat) ==> |pat| <= |s|
    decreases |s|
  {
    if s != [] {
      ContainsFits(s[1..], pat);
    }
  }

  /** A character that cannot begin the pattern is kept, and removal goes on behind it. */
  lemma RemoveLiteralKeepsHead(c: char, y: string, pat: string)
    requires pat != [] && c != pat[0]
    ensures RemoveLiteral([c] + y, pat) == [c] + RemoveLiteral(y, pat)
  {
    assert ([c] + y)[1..] == y;
    if |[c] + y| < |pat| {
      ContainsFits(y, pat);
      RemoveLiteralAbsent(y, pat);
    }
  }

  /** Text none of whose characters can begin the pattern is kept, and removal goes on behind it. */
  lemma {:induction false} RemoveLiteralKeepsPrefix(x: string, y: string, pat: string)
    requires pat != [] && pat[0] !in x
    ensures RemoveLiteral(x + y, pat) == x + RemoveLiteral(y, pat)
  {
    if x != [] {
      RemoveLiteralKeepsPrefix(x[1..], y, pat);
      assert x + y == [x[0]] + (x[1..] + y);
      RemoveLiteralKeepsHead(x[0], x[1..] + y, pat);
      assert x + RemoveLiteral(y, pat) == [x[0]] + (x[1..] + RemoveLiteral(y, pat));
    } else {
      assert x + y == y;
    }
  }

  /** No occurrence of the pattern starts among the first `n` characters of `s`. */
  predicate NoMatchBefore(s: string, n: nat, pat: string)
    requires n <= |s|
  {
    forall i :: 0 <= i < n ==> !StartsWith(s[i..], pat)
  }

  /** Past a first character where no occurrence starts, the rest has one such character fewer. */
  lemma NoMatchShift(s: string, n: nat, pat: string)
    requires 1 <= n <= |s| && NoMatchBefore(s, n, pat)
    ensures !StartsWith(s, pat) && NoMatchBefore(s[1..], n - 1, pat)
  {
    assert s[0..] == s;
    forall i | 0 <= i < n - 1
      ensures !StartsWith(s[1..][i..], pat)
    {
      assert s[1..][i..] == s[i + 1..];
    }
  }

  /**
   * The first occurrence is deleted: text in front of it where no occurrence starts is kept,
   * and removal goes on behind it.
   */
  lemma {:induction false} RemoveLiteralSkip(x: string, y: string, pat: string)
    requires pat != []
    requires NoMatchBefore(x + pat + y, |x|, pat)
    ensures RemoveLiteral(x + pat + y, pat) == x + RemoveLiteral(y, pat)
  {
    var s := x + pat + y;
    if x == [] {
      assert s == pat + y;
      RemoveLiteralAtStart(pat, y);
    } else {
      NoMatchShift(s, |x|, pat);
      RemoveLiteralStep(s, pat);
      assert s[1..] == x[1..] + pat + y;
      RemoveLiteralSkip(x[1..], y, pat);
      assert x + RemoveLiteral(y, pat) == [x[0]] + (x[1..] + RemoveLiteral(y, pat));
    }
  }

  /** An occurrence at the front is deleted. */
  lemma RemoveLiteralAtStart(pat: string, y: string)
    requires pat != []
    ensures RemoveLiteral(pat + y, pat) == RemoveLiteral(y, pat)
  {
    assert (pat + y)[..|pat|] == pat;
    assert (pat + y)[|pat|..] == y;
  }

  /** Without an occurrence at the front, the first character is kept. */
  lemma RemoveLiteralStep(s: string, pat: string)
    requires pat != [] && |pat| <= |s| && !StartsWith(s, pat)
    ensures RemoveLiteral(s, pat) == [s[0]] + RemoveLiteral(s[1..], pat)
  {
  }

  /** ASCII word characters: what `\b` looks at. */
  predicate IsWordChar(c: char) {
    ('a' <= c <= 'z') || ('A' <= c <= 'Z') || ('0' <= c <= '9') || c == '_'
  }

  /**
   * `s.replace(/\bde\b/g, "")`, scanning from the left; `afterWord` tells whether the character
   * before `s` in the original string is a word character (false at the start).
   */
  function RemoveWordDe(s: string, afterWord: bool): (r: string)
    ensures |r| <= |s|
    decreases |s|
  {
    if DeAt(s, afterWord) then RemoveWordDe(s[2..], true)
    else if s == [] then []
    else [s[0]] + RemoveWordDe(s[1..], IsWordChar(s[0]))
  }

  /** `\bde\b` matches at the start of `s`. */
  predicate DeAt(s: string, afterWord: bool) {
    |s| >= 2 && s[0] == 'd' && s[1] == 'e' && !afterWord && (|s| == 2 || !IsWordChar(s[2]))
  }

  /** Only deletions: no character is added or occurs more often. */
  lemma {:induction false} RemoveWordDeDeletes(s: string, afterWord: bool)
    ensures multiset(RemoveWordDe(s, afterWord)) <= multiset(s)
    decreases |s|
  {
    if DeAt(s, afterWord) {
      RemoveWordDeDropStep(s, afterWord);
      RemoveWordDeDeletes(s[2..], true);
      assert s == s[..2] + s[2..];
    } else if s != [] {
      RemoveWordDeKeepStep(s, afterWord);
      RemoveWordDeDeletes(s[1..], IsWordChar(s[0]));
      assert s == [s[0]] + s[1..];
    }
  }

  lemma RemoveWordDeDropStep(s: string, afterWord: bool)
    requires DeAt(s, afterWord)
    ensures RemoveWordDe(s, afterWord) == RemoveWordDe(s[2..], true)
  {
  }

  lemma RemoveWordDeKeepStep(s: string, afterWord: bool)
    requires s != [] && !DeAt(s, afterWord)
    ensures RemoveWordDe(s, afterWord) == [s[0]] + RemoveWordDe(s[1..], IsWordChar(s[0]))
  {
  }

  /**
   * A `de` stands alone at `i`: neither a word character (or, at the start, `afterWord`) in front
   * of it nor a word character behind it.
   */
  predicate StandaloneDeAt(s: string, afterWord: bool, i: int)
    requires 0 <= i < |s| - 1
  {
    && s[i] == 'd' && s[i + 1] == 'e'
    && !(if i == 0 then afterWord else IsWordChar(s[i - 1]))
    && !(i + 2 < |s| && IsWordChar(s[i + 2]))
  }

  /** `s` holds no `de` standing alone. */
  predicate NoStandaloneDe(s: string, afterWord: bool) {
    forall i :: 0 <= i < |s| - 1 ==> !StandaloneDeAt(s, afterWord, i)
  }

  /** Dropping the first character moves every position down by one, `afterWord` following it. */
  lemma StandaloneShift(s: string, afterWord: bool, i: int)
    requires s != [] && 0 <= i < |s| - 2
    ensures StandaloneDeAt(s[1..], IsWordChar(s[0]), i) == StandaloneDeAt(s, afterWord, i + 1)
  {
  }

  /** Text without a standalone `de` is kept as it is. */
  lemma {:induction false} RemoveWordDeKeeps(s: string, afterWord: bool)
    requires NoStandaloneDe(s, afterWord)
    ensures RemoveWordDe(s, afterWord) == s
    decreases |s|
  {
    if s != [] {
      if |s| >= 2 {
        assert !StandaloneDeAt(s, afterWord, 0);
      }
      var t, a := s[1..], IsWordChar(s[0]);
      forall i | 0 <= i < |t| - 1
        ensures !StandaloneDeAt(t, a, i)
      {
        StandaloneShift(s, afterWord, i);
      }
      RemoveWordDeKeeps(t, a);
      assert s == [s[0]] + t;
    }
  }

  /** A standalone `de` anywhere is removed: the result is shorter. */
  lemma {:induction false} RemoveWordDeShrinks(s: string, afterWord: bool)
    requires !NoStandaloneDe(s, afterWord)
    ensures |RemoveWordDe(s, afterWord)| < |s|
    decreases |s|
  {
    var i :| 0 <= i < |s| - 1 && StandaloneDeAt(s, afterWord, i);
    if !DeAt(s, afterWord) {
      assert i != 0;
      StandaloneShift(s, afterWord, i - 1);
      assert !NoStandaloneDe(s[1..], IsWordChar(s[0]));
      RemoveWordDeShrinks(s[1..], IsWordChar(s[0]));
    }
  }

  /** `replace(/\bde\b/g, "")` changes the text exactly when it holds a standalone `de`. */
  lemma RemoveWordDeUnchangedIff(s: string, afterWord: bool)
    ensures RemoveWordDe(s, afterWord) == s <==> NoStandaloneDe(s, afterWord)
  {
    if NoStandaloneDe(s, afterWord) {
      RemoveWordDeKeeps(s, afterWord);
    } else {
      RemoveWordDeShrinks(s, afterWord);
    }
  }

  /** Removal works piece by piece across a boundary that follows a non-word character. */
  lemma {:induction false} RemoveWordDeAppend(x: string, z: string, afterWord: bool)
    requires x != [] && !IsWordChar(x[|x| - 1])
    ensures RemoveWordDe(x + z, afterWord) == RemoveWordDe(x, afterWord) + RemoveWordDe(z, false)
    decreases |x|, 1
  {
    DeAtExtends(x, z, afterWord);
    if DeAt(x, afterWord) {
      RemoveWordDeAppendDrop(x, z, afterWord);
    } else {
      RemoveWordDeAppendKeep(x, z, afterWord);
    }
  }

  lemma {:induction false} RemoveWordDeAppendDrop(x: string, z: string, afterWord: bool)
    requires x != [] && !IsWordChar(x[|x| - 1])
    requires DeAt(x, afterWord) && DeAt(x + z, afterWord)
    ensures RemoveWordDe(x + z, afterWord) == RemoveWordDe(x, afterWord) + RemoveWordDe(z, false)
    decreases |x|, 0
  {
    var s := x + z;
    calc {
      RemoveWordDe(s, afterWord);
      { RemoveWordDeDropStep(s, afterWord); assert s[2..] == x[2..] + z; }
      RemoveWordDe(x[2..] + z, true);
      { RemoveWordDeAppend(x[2..], z, true); }
      RemoveWordDe(x[2..], true) + RemoveWordDe(z, false);
      { RemoveWordDeDropStep(x, afterWord); }
      RemoveWordDe(x, afterWord) + RemoveWordDe(z, false);
    }
  }

  lemma {:induction false} RemoveWordDeAppendKeep(x: string, z: string, afterWord: bool)
    requires x != [] && !IsWordChar(x[|x| - 1])
    requires !DeAt(x, afterWord) && !DeAt(x + z, afterWord)
    ensures RemoveWordDe(x + z, afterWord) == RemoveWordDe(x, afterWord) + RemoveWordDe(z, false)
    decreases |x|, 0
  {
    var s := x + z;
    var a := IsWordChar(x[0]);
    RemoveWordDeKeepStep(s, afterWord);
    RemoveWordDeKeepStep(x, afterWord);
    if |x| == 1 {
      assert s[1..] == z;
      assert x[1..] == [];
    } else {
      calc {
        RemoveWordDe(s, afterWord);
        { assert s[1..] == x[1..] + z; }
        [x[0]] + RemoveWordDe(x[1..] + z, a);
        { RemoveWordDeAppend(x[1..], z, a); }
        [x[0]] + (RemoveWordDe(x[1..], a) + RemoveWordDe(z, false));
      }
    }
  }

  /** Behind a text ending in a non-word character, whether `de` matches at the front does not change. */
  lemma DeAtExtends(x: string, z: string, afterWord: bool)
    requires x != [] && !IsWordChar(x[|x| - 1])
    ensures DeAt(x + z, afterWord) == DeAt(x, afterWord)
  {
    if |x| >= 2 && x[1] == 'e' {
      assert |x| >= 3;
    }
  }

  /** A lone space is kept. */
  lemma RemoveWordDeSpace(afterWord: bool)
    ensures RemoveWordDe(" ", afterWord) == " "
  {
    assert " "[1..] == [];
  }

  /** A `de` at the start, after a non-word character, and before one (or the end) is deleted. */
  lemma RemoveWordDeAtStart(y: string)
    requires y == [] || !IsWordChar(y[0])
    ensures RemoveWordDe("de" + y, false) == RemoveWordDe(y, true)
  {
    assert ("de" + y)[2..] == y;
  }

  /** A `de` between a non-word character and a non-word character (or the end) is dropped. */
  lemma RemoveWordDeDropsDe(x: string, y: string, afterWord: bool)
    requires y == [] || !IsWordChar(y[0])
    ensures RemoveWordDe(x + " de" + y, afterWord) == RemoveWordDe(x + " ", afterWord) + RemoveWordDe(y, true)
  {
    assert x + " de" + y == (x + " ") + ("de" + y);
    RemoveWordDeAppend(x + " ", "de" + y, afterWord);
    assert ("de" + y)[2..] == y;
  }

  /**
   * A word keeps its `de`: a run of word characters is kept whole (`del`, `desde`), unless it is
   * `de` itself and stands alone.
   */
  lemma {:induction false} RemoveWordDeWord(w: string, afterWord: bool)
    requires forall k :: 0 <= k < |w| ==> IsWordChar(w[k])
    ensures RemoveWordDe(w, afterWord) == if !afterWord && w == "de" then [] else w
    decreases |w|
  {
    if w != [] && !(!afterWord && w == "de") {
      RemoveWordDeWord(w[1..], true);
      assert w == [w[0]] + w[1..];
    }
  }

  /**
   * `s.replace(/\s+/g, " ")`: every maximal run of white space becomes one space, emitted where
   * the run ends; everything else is kept in order.
   */
  function CollapseWhiteSpace(s: string): string
    decreases |s|
  {
    if s == [] then []
    else if IsWhiteSpace(s[0]) && |s| > 1 && IsWhiteSpace(s[1]) then CollapseWhiteSpace(s[1..])
    else [if IsWhiteSpace(s[0]) then ' ' else s[0]] + CollapseWhiteSpace(s[1..])
  }

  /** Text whose only white space is single spaces, never two in a row. */
  predicate SingleSpaced(s: string) {
    && (forall k :: 0 <= k < |s| ==> IsWhiteSpace(s[k]) ==> s[k] == ' ')
    && (forall k :: 0 <= k < |s| - 1 ==> !(s[k] == ' ' && s[k + 1] == ' '))
  }

  /** A character in front of single-spaced text keeps it single-spaced unless it makes two spaces. */
  lemma SingleSpacedCons(c: char, w: string)
    requires SingleSpaced(w)
    requires IsWhiteSpace(c) ==> c == ' '
    requires c == ' ' ==> w == [] || w[0] != ' '
    ensures SingleSpaced([c] + w)
  {
    var s := [c] + w;
    forall k | 0 <= k < |s| - 1
      ensures !(s[k] == ' ' && s[k + 1] == ' ')
    {
      if k > 0 {
        assert s[k] == w[k - 1] && s[k + 1] == w[k];
      }
    }
  }

  /** The rest of single-spaced text is single-spaced, and after a white-space head it starts otherwise. */
  lemma SingleSpacedTail(s: string)
    requires s != [] && SingleSpaced(s)
    ensures SingleSpaced(s[1..])
    ensures IsWhiteSpace(s[0]) ==> s[0] == ' ' && (s[1..] == [] || !IsWhiteSpace(s[1..][0]))
  {
    var t := s[1..];
    forall k | 0 <= k < |t| - 1
      ensures !(t[k] == ' ' && t[k + 1] == ' ')
    {
      assert t[k] == s[k + 1] && t[k + 1] == s[k + 2];
    }
    if |s| > 1 {
      assert !(s[0] == ' ' && s[1] == ' ');
    }
  }

  /** `trimStart` drops a run of white space up to a character that is not white space. */
  lemma {:induction false} TrimStartRun(ws: string, b: string)
    requires forall k :: 0 <= k < |ws| ==> IsWhiteSpace(ws[k])
    requires b == [] || !IsWhiteSpace(b[0])
    ensures TrimStart(ws + b) == b
  {
    if ws != [] {
      assert (ws + b)[1..] == ws[1..] + b;
      TrimStartRun(ws[1..], b);
    } else {
      assert ws + b == b;
    }
  }

  /** `trim` of a trimmed string behind a run of white space gives the string. */
  lemma TrimAfterRun(ws: string, w: string)
    requires forall k :: 0 <= k < |ws| ==> IsWhiteSpace(ws[k])
    requires IsTrimmed(w)
    ensures Trim(ws + w) == w
  {
    TrimStartRun(ws, w);
  }

  /** `trimStart` drops only white space. */
  lemma {:induction false} TrimStartCounts(s: string, c: char)
    requires !IsWhiteSpace(c)
    ensures multiset(TrimStart(s))[c] == multiset(s)[c]
    decreases |s|
  {
    if s != [] && IsWhiteSpace(s[0]) {
      TrimStartCounts(s[1..], c);
      HeadCount(s, c);
    }
  }

  /** A head other than `c` does not count towards `c`. */
  lemma HeadCount(s: string, c: char)
    requires s != [] && s[0] != c
    ensures multiset(s)[c] == multiset(s[1..])[c]
  {
    assert s == [s[0]] + s[1..];
  }

  /** `trimEnd` drops only white space. */
  lemma {:induction false} TrimEndCounts(s: string, c: char)
    requires !IsWhiteSpace(c)
    ensures multiset(TrimEnd(s))[c] == multiset(s)[c]
    decreases |s|
  {
    if s != [] && IsWhiteSpace(s[|s| - 1]) {
      TrimEndCounts(s[..|s| - 1], c);
      assert s == s[..|s| - 1] + [s[|s| - 1]];
    }
  }

  /** `trim` keeps every character that is not white space, each as often as it occurs. */
  lemma TrimCounts(s: string, c: char)
    requires !IsWhiteSpace(c)
    ensures multiset(Trim(s))[c] == multiset(s)[c]
  {
    TrimStartCounts(s, c);
    TrimEndCounts(TrimStart(s), c);
  }

  /** `trim` keeps single-spaced text single-spaced. */
  lemma TrimSingleSpaced(w: string)
    requires SingleSpaced(w)
    ensures SingleSpaced(Trim(w))
  {
    TrimChars(w);
  }

  /**
   * The collapsed text is single-spaced, its only white space being spaces, and it starts with a
   * space only when the text starts with white space.
   */
  lemma {:induction false} CollapseShape(s: string)
    ensures SingleSpaced(CollapseWhiteSpace(s))
    ensures var r := CollapseWhiteSpace(s); r != [] && r[0] == ' ' ==> s != [] && IsWhiteSpace(s[0])
    decreases |s|
  {
    if s != [] {
      CollapseShape(s[1..]);
      if !(IsWhiteSpace(s[0]) && |s| > 1 && IsWhiteSpace(s[1])) {
        SingleSpacedCons(if IsWhiteSpace(s[0]) then ' ' else s[0], CollapseWhiteSpace(s[1..]));
      }
    }
  }

  /** Text that is already single-spaced is left alone, and only such text is. */
  lemma CollapseUnchangedIff(s: string)
    ensures CollapseWhiteSpace(s) == s <==> SingleSpaced(s)
  {
    if SingleSpaced(s) {
      CollapseSingleSpaced(s);
    } else {
      CollapseShape(s);
    }
  }

  lemma {:induction false} CollapseSingleSpaced(s: string)
    requires SingleSpaced(s)
    ensures CollapseWhiteSpace(s) == s
    decreases |s|
  {
    if s != [] {
      SingleSpacedTail(s);
      CollapseSingleSpaced(s[1..]);
      assert s == [s[0]] + s[1..];
    }
  }

  /** A run of white space up to a character that is not white space (or the end) becomes one space. */
  lemma {:induction false} CollapseRun(ws: string, b: string)
    requires ws != [] && forall k :: 0 <= k < |ws| ==> IsWhiteSpace(ws[k])
    requires b == [] || !IsWhiteSpace(b[0])
    ensures CollapseWhiteSpace(ws + b) == [' '] + CollapseWhiteSpace(b)
  {
    var s := ws + b;
    assert s[1..] == ws[1..] + b;
    if |ws| > 1 {
      assert IsWhiteSpace(s[1]);
      CollapseRun(ws[1..], b);
    } else {
      assert s[1..] == b;
    }
  }

  /** Collapsing works piece by piece across a boundary that follows a character that is not white space. */
  lemma {:induction false} CollapseAppend(a: string, b: string)
    requires a != [] && !IsWhiteSpace(a[|a| - 1])
    ensures CollapseWhiteSpace(a + b) == CollapseWhiteSpace(a) + CollapseWhiteSpace(b)
  {
    var s := a + b;
    if |a| == 1 {
      assert s[1..] == b;
    } else {
      assert s[1] == a[1] && s[1..] == a[1..] + b;
      CollapseAppend(a[1..], b);
    }
  }

  /** Collapsing keeps every character that is not white space, each as often as it occurs. */
  lemma {:induction false} CollapseCounts(s: string, c: char)
    requires !IsWhiteSpace(c)
    ensures multiset(CollapseWhiteSpace(s))[c] == multiset(s)[c]
    decreases |s|
  {
    if s != [] {
      CollapseCounts(s[1..], c);
      ConsCount(s[0], s[1..], c);
      assert s == [s[0]] + s[1..];
      if !(IsWhiteSpace(s[0]) && |s| > 1 && IsWhiteSpace(s[1])) {
        ConsCount(if IsWhiteSpace(s[0]) then ' ' else s[0], CollapseWhiteSpace(s[1..]), c);
      }
    }
  }

  lemma ConsCount(x: char, w: string, c: char)
    ensures multiset([x] + w)[c] == multiset(w)[c] + if x == c then 1 else 0
  {
  }
}
