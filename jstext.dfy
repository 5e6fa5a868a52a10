/** The JavaScript string built-ins that the response check relies on:
    `length`, `String.prototype.trim` and `split(/\s+/)`.
    A JavaScript string is a sequence of UTF-16 code units, and all three
    operations count and compare code units, so that is what is modelled here. */
module JsText {

  newtype CodeUnit = x: int | 0 <= x < 0x1_0000

  type JsString = seq<CodeUnit>

  /** The code units matched by `\s` in a regular expression and removed by
      `trim`: ECMAScript's WhiteSpace (tab, vertical tab, form feed, the byte
      order mark and every space separator) and LineTerminator (line feed,
      carriage return, line and paragraph separator). */
  predicate IsSpace(c: CodeUnit) {
    || c == 0x09 || c == 0x0A || c == 0x0B || c == 0x0C || c == 0x0D
    || c == 0x20 || c == 0xA0 || c == 0x1680
    || (0x2000 <= c <= 0x200A)
    || c == 0x2028 || c == 0x2029 || c == 0x202F || c == 0x205F
    || c == 0x3000 || c == 0xFEFF
  }

  predicate AllSpace(s: JsString) {
    forall i :: 0 <= i < |s| ==> IsSpace(s[i])
  }

  predicate NoSpace(s: JsString) {
    forall i :: 0 <= i < |s| ==> !IsSpace(s[i])
  }

  /** What `trim` guarantees of its result: it neither starts nor ends with whitespace. */
  predicate Trimmed(s: JsString) {
    s == [] || (!IsSpace(s[0]) && !IsSpace(s[|s| - 1]))
  }

  // ---------------------------------------------------------------- trim

  /** Drops the leading whitespace of s. */
  function TrimStart(s: JsString): (r: JsString)
    ensures |r| <= |s|
    ensures r == [] || !IsSpace(r[0])
  {
    if s != [] && IsSpace(s[0]) then TrimStart(s[1..]) else s
  }

  /** TrimStart keeps a suffix of s and drops whitespace only. */
  lemma {:induction false} TrimStartDropsSpace(s: JsString)
    ensures TrimStart(s) == s[|s| - |TrimStart(s)|..]
    ensures AllSpace(s[..|s| - |TrimStart(s)|])
    decreases |s|
  {
    if s != [] && IsSpace(s[0]) {
      var r := TrimStart(s[1..]);
      TrimStartDropsSpace(s[1..]);
      assert s[1..][|s| - 1 - |r|..] == s[|s| - |r|..];
      assert s[..|s| - |r|] == [s[0]] + s[1..][..|s| - 1 - |r|];
    } else {
      assert s[0..] == s;
    }
  }

  /** Drops the trailing whitespace of s. */
  function TrimEnd(s: JsString): (r: JsString)
    ensures |r| <= |s| && (r != [] ==> r[0] == s[0])
    ensures r == [] || !IsSpace(r[|r| - 1])
  {
    if s != [] && IsSpace(s[|s| - 1]) then TrimEnd(s[..|s| - 1]) else s
  }

  /** TrimEnd keeps a prefix of s and drops whitespace only. */
  lemma {:induction false} TrimEndDropsSpace(s: JsString)
    ensures TrimEnd(s) == s[..|TrimEnd(s)|]
    ensures AllSpace(s[|TrimEnd(s)|..])
    decreases |s|
  {
    if s != [] && IsSpace(s[|s| - 1]) {
      var init := s[..|s| - 1];
      var r := TrimEnd(init);
      TrimEndDropsSpace(init);
      assert init[..|r|] == s[..|r|];
      assert s[|r|..] == init[|r|..] + [s[|s| - 1]];
    } else {
      assert s[..|s|] == s;
    }
  }

  /** `s.trim()`: s without its leading and trailing whitespace. */
  function Trim(s: JsString): (r: JsString)
    ensures Trimmed(r) && |r| <= |s|
  {
    TrimEnd(TrimStart(s))
  }

  /** A prefix of a suffix of s is a slice of s, and whitespace cut off the
      end of the suffix is whitespace at the end of s. */
  lemma PrefixOfSuffix(s: JsString, t: JsString, r: JsString)
    requires |t| <= |s| && t == s[|s| - |t|..]
    requires |r| <= |t| && r == t[..|r|] && AllSpace(t[|r|..])
    ensures var a := |s| - |t|;
      r == s[a..a + |r|] && AllSpace(s[a + |r|..])
  {
    var a := |s| - |t|;
    assert s[a..a + |r|] == t[..|r|];
    assert s[a + |r|..] == t[|r|..];
  }

  /** What `trim` keeps is one slice of its input, and what it cuts off on
      either side is whitespace only. */
  lemma TrimIsSlice(s: JsString)
    ensures var a := |s| - |TrimStart(s)|;
      var r := Trim(s);
      && a + |r| <= |s| && r == s[a..a + |r|]
      && AllSpace(s[..a]) && AllSpace(s[a + |r|..])
  {
    var t := TrimStart(s);
    TrimStartDropsSpace(s);
    TrimEndDropsSpace(t);
    PrefixOfSuffix(s, t, TrimEnd(t));
  }

  /** Trimming a trimmed string changes nothing, so `trim` is idempotent. */
  lemma TrimOfTrimmed(s: JsString)
    requires Trimmed(s)
    ensures Trim(s) == s
  {
    assert TrimStart(s) == s;
    assert TrimEnd(s) == s;
  }

  lemma TrimIdempotent(s: JsString)
    ensures Trim(Trim(s)) == Trim(s)
  {
    TrimOfTrimmed(Trim(s));
  }

  // ------------------------------------------------------ split(/\s+/)

  /** Index of the first whitespace code unit of s, or |s| if there is none. */
  function FirstSpace(s: JsString): (i: nat)
    ensures i <= |s|
    ensures i < |s| ==> IsSpace(s[i])
  {
    if s == [] || IsSpace(s[0]) then 0 else 1 + FirstSpace(s[1..])
  }

  /** No whitespace comes before FirstSpace. */
  lemma {:induction false} FirstSpaceIsFirst(s: JsString)
    ensures NoSpace(s[..FirstSpace(s)])
    decreases |s|
  {
    if s != [] && !IsSpace(s[0]) {
      var i := FirstSpace(s[1..]);
      FirstSpaceIsFirst(s[1..]);
      assert s[..1 + i] == [s[0]] + s[1..][..i];
    }
  }

  /** The end of the greedy `\s+` match that starts at i: the first index at
      or after i that is not whitespace. */
  function SpaceRunEnd(s: JsString, i: nat): (j: nat)
    requires i <= |s|
    ensures i <= j <= |s|
    ensures j < |s| ==> !IsSpace(s[j])
    decreases |s| - i
  {
    if i < |s| && IsSpace(s[i]) then SpaceRunEnd(s, i + 1) else i
  }

  /** Everything from i up to SpaceRunEnd is whitespace. */
  lemma {:induction false} SpaceRunIsSpace(s: JsString, i: nat)
    requires i <= |s|
    ensures forall k :: i <= k < SpaceRunEnd(s, i) ==> IsSpace(s[k])
    decreases |s| - i
  {
    if i < |s| && IsSpace(s[i]) {
      SpaceRunIsSpace(s, i + 1);
    }
  }

  /** `s.split(/\s+/)`: the leftmost greedy whitespace runs are the
      separators, and the pieces between them are returned in order. A string
      that starts (ends) with whitespace yields an empty first (last) piece,
      and the empty string yields the one piece `""`. */
  function SplitWs(s: JsString): (pieces: seq<JsString>)
    ensures |pieces| >= 1
    decreases |s|
  {
    var i := FirstSpace(s);
    if i == |s| then [s]
    else
      var j := SpaceRunEnd(s, i);
      [s[..i]] + SplitWs(s[j..])
  }

  /** No piece of `split(/\s+/)` contains whitespace. */
  lemma {:induction false} SplitPiecesHaveNoSpace(s: JsString)
    ensures forall k :: 0 <= k < |SplitWs(s)| ==> NoSpace(SplitWs(s)[k])
    decreases |s|
  {
    var i := FirstSpace(s);
    FirstSpaceIsFirst(s);
    if i < |s| {
      var j := SpaceRunEnd(s, i);
      SplitPiecesHaveNoSpace(s[j..]);
      assert SplitWs(s) == [s[..i]] + SplitWs(s[j..]);
    } else {
      assert s[..i] == s;
    }
  }

  /** The empty string splits into one empty piece, so its "word count" by
      splitting is 1, not 0. */
  lemma SplitEmpty()
    ensures SplitWs([]) == [[]]
  {
  }

  // ----------------------------------------------------------- words

  /** Number of maximal runs of non-whitespace code units in s, scanning left
      to right; inWord says whether the code unit before s was a non-whitespace
      one (so that a run continuing into s is not counted again). */
  function CountRuns(s: JsString, inWord: bool): (count: nat)
    ensures count <= |s|
  {
    if s == [] then 0
    else if IsSpace(s[0]) then CountRuns(s[1..], false)
    else (if inWord then 0 else 1) + CountRuns(s[1..], true)
  }

  /** The number of whitespace-separated words of s. */
  function WordCount(s: JsString): (count: nat)
    ensures count <= |s|
  {
    CountRuns(s, false)
  }

  /** Scanning past a non-empty run of non-whitespace counts at most the one
      word that run starts. */
  lemma {:induction false} SkipWord(s: JsString, i: nat, inWord: bool)
    requires 0 < i <= |s| && NoSpace(s[..i])
    ensures CountRuns(s, inWord) == (if inWord then 0 else 1) + CountRuns(s[i..], true)
    decreases i
  {
    assert !IsSpace(s[..i][0]);
    if i > 1 {
      assert s[1..][..i - 1] == s[1..i];
      assert forall k :: 0 <= k < i - 1 ==> s[1..i][k] == s[..i][k + 1];
      SkipWord(s[1..], i - 1, true);
      assert s[1..][i - 1..] == s[i..];
    }
  }

  /** Scanning past a non-empty run of whitespace ends any word in progress. */
  lemma {:induction false} SkipSpace(s: JsString, j: nat, inWord: bool)
    requires 0 < j <= |s| && AllSpace(s[..j])
    ensures CountRuns(s, inWord) == CountRuns(s[j..], false)
    decreases j
  {
    assert IsSpace(s[..j][0]);
    if j > 1 {
      assert s[1..][..j - 1] == s[1..j];
      SkipSpace(s[1..], j - 1, false);
      assert s[1..][j - 1..] == s[j..];
    }
  }

  /** Trailing whitespace adds no word. */
  lemma {:induction false} TrailingSpace(t: JsString, sp: JsString, inWord: bool)
    requires AllSpace(sp)
    ensures CountRuns(t + sp, inWord) == CountRuns(t, inWord)
    decreases |t|
  {
    if t == [] {
      assert t + sp == sp;
      if sp != [] {
        assert sp[..|sp|] == sp;
        SkipSpace(sp, |sp|, inWord);
        assert sp[|sp|..] == [];
      }
    } else {
      assert (t + sp)[1..] == t[1..] + sp;
      TrailingSpace(t[1..], sp, !IsSpace(t[0]));
    }
  }

  /** For a trimmed, non-empty string the length of `split(/\s+/)` is exactly
      its number of words. */
  lemma {:induction false} SplitCountsWords(s: JsString)
    requires s != [] && Trimmed(s)
    ensures |SplitWs(s)| == WordCount(s)
    decreases |s|
  {
    var i := FirstSpace(s);
    assert i > 0;
    FirstSpaceIsFirst(s);
    SkipWord(s, i, false);
    if i < |s| {
      var j := SpaceRunEnd(s, i);
      SpaceRunIsSpace(s, i);
      assert !IsSpace(s[|s| - 1]);
      var rest := s[j..];
      assert rest[0] == s[j] && rest[|rest| - 1] == s[|s| - 1];
      SplitCountsWords(rest);
      assert s[i..][..j - i] == s[i..j];
      SkipSpace(s[i..], j - i, true);
      assert s[i..][j - i..] == rest;
    }
  }

  /** Trimming never changes the number of words. */
  lemma TrimKeepsWords(s: JsString)
    ensures WordCount(Trim(s)) == WordCount(s)
  {
    var t := TrimStart(s);
    var r := TrimEnd(t);
    TrimStartDropsSpace(s);
    TrimEndDropsSpace(t);
    assert Trim(s) == r;
    assert t == r + t[|r|..];
    TrailingSpace(r, t[|r|..], false);
    var a := |s| - |t|;
    if a > 0 {
      SkipSpace(s, a, false);
    } else {
      assert t == s;
    }
  }
}
