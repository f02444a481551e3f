/**
 The functions of Go's strings package that the migration runner uses, on ASCII text.
 */
module GoStrings {

  function Split(s: string, sep: char): (parts: seq<string>)
    ensures parts != [] && forall k :: 0 <= k < |parts| ==> sep !in parts[k]
  {
    if s == "" then [""]
    else
      var rest := Split(s[1..], sep);
      if s[0] == sep then [""] + rest else [[s[0]] + rest[0]] + rest[1..]
  }

  function Join(parts: seq<string>, sep: char): string
    requires parts != []
  {
    if |parts| == 1 then parts[0] else parts[0] + [sep] + Join(parts[1..], sep)
  }

  lemma {:induction false} SplitOfConcat(part: string, tail: string, sep: char)
    requires sep !in part
    ensures Split(part + [sep] + tail, sep) == [part] + Split(tail, sep)
    ensures Split(part, sep) == [part]
  {
    if part == "" {
      assert part + [sep] + tail == [sep] + tail;
    } else {
      SplitOfConcat(part[1..], tail, sep);
      assert (part + [sep] + tail)[1..] == part[1..] + [sep] + tail;
      assert [part[0]] + part[1..] == part;
    }
  }

  /** Joining undoes splitting, and splitting undoes joining when no part contains the separator. */
  lemma {:induction false} SplitJoin(parts: seq<string>, sep: char)
    requires parts != [] && forall k :: 0 <= k < |parts| ==> sep !in parts[k]
    ensures Split(Join(parts, sep), sep) == parts
  {
    if |parts| == 1 {
      SplitOfConcat(parts[0], "", sep);
    } else {
      SplitJoin(parts[1..], sep);
      SplitOfConcat(parts[0], Join(parts[1..], sep), sep);
    }
  }

  lemma {:induction false} JoinSplit(s: string, sep: char)
    ensures Join(Split(s, sep), sep) == s
  {
    if s != "" {
      JoinSplit(s[1..], sep);
      var rest := Split(s[1..], sep);
      if s[0] == sep {
        assert ([""] + rest)[1..] == rest;
      } else {
        assert ([[s[0]] + rest[0]] + rest[1..])[1..] == rest[1..];
      }
    }
  }

  predicate IsSpace(c: char) {
    c in {' ', '\t', '\n', '\r', 11 as char, 12 as char}
  }

  function TrimLeft(s: string): string {
    if s != "" && IsSpace(s[0]) then TrimLeft(s[1..]) else s
  }

  function TrimRight(s: string): string {
    if s != "" && IsSpace(s[|s| - 1]) then TrimRight(s[..|s| - 1]) else s
  }

  function TrimSpace(s: string): string {
    TrimRight(TrimLeft(s))
  }

  predicate Trim(s: string) {
    s == "" || (!IsSpace(s[0]) && !IsSpace(s[|s| - 1]))
  }

  lemma {:induction false} TrimLeftIsSuffix(s: string)
    ensures exists k :: 0 <= k <= |s| && TrimLeft(s) == s[k..]
    ensures TrimLeft(s) == "" || !IsSpace(TrimLeft(s)[0])
  {
    if s != "" && IsSpace(s[0]) {
      TrimLeftIsSuffix(s[1..]);
      var k :| 0 <= k <= |s[1..]| && TrimLeft(s[1..]) == s[1..][k..];
      assert s[1..][k..] == s[k + 1..];
    } else {
      assert s == s[0..];
    }
  }

  lemma {:induction false} TrimRightIsPrefix(s: string)
    ensures exists k :: 0 <= k <= |s| && TrimRight(s) == s[..k]
    ensures TrimRight(s) == "" || !IsSpace(TrimRight(s)[|TrimRight(s)| - 1])
  {
    if s != "" && IsSpace(s[|s| - 1]) {
      TrimRightIsPrefix(s[..|s| - 1]);
      var k :| 0 <= k <= |s| - 1 && TrimRight(s[..|s| - 1]) == s[..|s| - 1][..k];
      assert s[..|s| - 1][..k] == s[..k];
    } else {
      assert s == s[..|s|];
    }
  }

  /** Trimming leaves a trimmed piece of the text and does nothing to trimmed text. */
  lemma TrimSpaceTrims(s: string)
    ensures Trim(TrimSpace(s))
    ensures Trim(s) ==> TrimSpace(s) == s
    ensures forall c :: c in TrimSpace(s) ==> c in s
  {
    TrimLeftIsSuffix(s);
    TrimRightIsPrefix(TrimLeft(s));
  }

  /** Trimming cuts nothing but white space, and all of it at either end. */
  lemma TrimSpaceCutsSpaces(s: string) returns (i: nat, j: nat)
    ensures i <= j <= |s| && TrimSpace(s) == s[i..j] && Trim(s[i..j])
    ensures forall k :: 0 <= k < i || j <= k < |s| ==> IsSpace(s[k])
  {
    i := LeftCut(s);
    var kept := TrimLeft(s);
    var n := RightCut(kept);
    j := i + n;
    TrimSpaceTrims(s);
    assert s[i..][..n] == s[i..j];
    forall k | j <= k < |s|
      ensures IsSpace(s[k])
    {
      assert s[k] == kept[k - i];
    }
  }

  /** Tab, line feed, vertical tab, form feed, carriage return and blank. */
  lemma SpaceCodes(c: char)
    ensures IsSpace(c) <==> 9 <= c as int <= 13 || c as int == 32
  {
  }

  lemma {:induction false} LeftCut(s: string) returns (i: nat)
    ensures i <= |s| && TrimLeft(s) == s[i..] && forall k :: 0 <= k < i ==> IsSpace(s[k])
  {
    i := 0;
    if s != "" && IsSpace(s[0]) {
      var rest := LeftCut(s[1..]);
      i := rest + 1;
      assert s[1..][rest..] == s[i..];
      assert forall k :: 1 <= k < i ==> s[k] == s[1..][k - 1];
    }
  }

  lemma {:induction false} RightCut(s: string) returns (j: nat)
    ensures j <= |s| && TrimRight(s) == s[..j] && forall k :: j <= k < |s| ==> IsSpace(s[k])
  {
    j := |s|;
    if s != "" && IsSpace(s[|s| - 1]) {
      var shorter := s[..|s| - 1];
      j := RightCut(shorter);
      assert shorter[..j] == s[..j];
      assert forall k :: j <= k < |s| - 1 ==> s[k] == shorter[k];
    }
  }

  /** Only the small letters change, each into its capital. */
  lemma UpperLetters(s: string, k: nat)
    requires k < |s|
    ensures ToUpper(s)[k] == if 97 <= s[k] as int <= 122 then (s[k] as int - 32) as char else s[k]
  {
  }

  function Upper(c: char): char {
    if 'a' <= c <= 'z' then c - 'a' + 'A' else c
  }

  function ToUpper(s: string): (u: string)
    ensures |u| == |s| && forall k :: 0 <= k < |s| ==> u[k] == Upper(s[k])
  {
    seq(|s|, k requires 0 <= k < |s| => Upper(s[k]))
  }

  predicate OccursAt(s: string, sub: string, k: int) {
    0 <= k <= |s| - |sub| && s[k..k + |sub|] == sub
  }

  /** The first occurrence, or -1. */
  function Index(s: string, sub: string): (k: int)
    ensures -1 <= k <= |s| - |sub| || k == -1
  {
    if |s| < |sub| then -1
    else if s[..|sub|] == sub then 0
    else if s == "" then -1
    else
      var k := Index(s[1..], sub);
      if k < 0 then -1 else k + 1
  }

  lemma {:induction false} IndexIsFirst(s: string, sub: string)
    ensures Index(s, sub) >= 0 ==> OccursAt(s, sub, Index(s, sub))
    ensures forall j :: OccursAt(s, sub, j) ==> 0 <= Index(s, sub) <= j
  {
    if |s| >= |sub| && s[..|sub|] != sub && s != "" {
      IndexIsFirst(s[1..], sub);
      var k := Index(s[1..], sub);
      assert k >= 0 ==> s[1..][k..k + |sub|] == s[k + 1..k + 1 + |sub|];
      forall j | OccursAt(s, sub, j)
        ensures 0 <= k && k + 1 <= j
      {
        assert s[0..|sub|] == s[..|sub|];
        assert s[1..][j - 1..j - 1 + |sub|] == s[j..j + |sub|];
        assert OccursAt(s[1..], sub, j - 1);
      }
    }
  }

  predicate Contains(s: string, sub: string) {
    Index(s, sub) >= 0
  }

  function ReplaceFirst(s: string, sub: string, other: string): string {
    var k := Index(s, sub);
    if k < 0 then s else s[..k] + other + s[k + |sub|..]
  }

  function TrimSuffix(s: string, suffix: string): string {
    if |suffix| <= |s| && s[|s| - |suffix|..] == suffix then s[..|s| - |suffix|] else s
  }

  lemma TrimSuffixOfConcat(s: string, suffix: string)
    ensures TrimSuffix(s + suffix, suffix) == s
  {
    assert (s + suffix)[|s|..] == suffix;
  }

  /** Text whose last separator stands before `tail`. */
  lemma SplitEndsWith(dir: string, tail: string, sep: char)
    requires sep !in dir && sep !in tail
    ensures Split(dir + [sep] + tail, sep) == [dir, tail]
  {
    SplitOfConcat(dir, tail, sep);
    SplitOfConcat(tail, "", sep);
  }

  lemma StartsWith(s: string, rest: string)
    ensures Contains(s + rest, s)
  {
    IndexIsFirst(s + rest, s);
    assert OccursAt(s + rest, s, 0);
  }

  lemma OccurrenceHasLetters(s: string, sub: string, i: int, k: nat)
    requires OccursAt(s, sub, i) && k < |sub|
    ensures sub[k] in s
  {
    assert s[i..i + |sub|][k] == s[i + k];
  }

  /** Text without some letter of `sub` does not contain it. */
  lemma LetterMissing(s: string, sub: string, k: nat)
    requires k < |sub| && sub[k] !in s
    ensures !Contains(s, sub)
  {
    IndexIsFirst(s, sub);
    if Contains(s, sub) {
      OccurrenceHasLetters(s, sub, Index(s, sub), k);
    }
  }
}
