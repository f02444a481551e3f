/**
 The rewriter that makes CREATE TABLE statements of a migration repeatable.
 */
module SqlRewriter {
  import opened GoStrings

  const CREATE: string := "CREATE TABLE"
  const GUARD: string := "IF NOT EXISTS"
  const GUARDED: string := "CREATE TABLE IF NOT EXISTS"

  /** The statements the rewriter touches, whatever the case of their letters. */
  predicate NeedsGuard(stmt: string) {
    var upper := ToUpper(TrimSpace(stmt));
    TrimSpace(stmt) != "" && Contains(upper, CREATE) && !Contains(upper, GUARD)
  }

  function FixStatement(stmt: string): string {
    if NeedsGuard(stmt) then ReplaceFirst(TrimSpace(stmt), CREATE, GUARDED) else stmt
  }

  function FixStatements(statements: seq<string>): seq<string> {
    seq(|statements|, k requires 0 <= k < |statements| => FixStatement(statements[k]))
  }

  function FixSql(sql: string): string {
    Join(FixStatements(Split(sql, ';')), ';')
  }

  lemma OneMoreFixed(statements: seq<string>, original: seq<string>, i: nat)
    requires i < |original| && statements == FixStatements(original)[..i] + original[i..]
    ensures statements[i] == original[i]
    ensures statements[i := FixStatement(original[i])] == FixStatements(original)[..i + 1] + original[i + 1..]
  {
  }

  method FixCreateTableStatements(sql: string) returns (fixed: string)
    ensures fixed == FixSql(sql)
  {
    var statements := Split(sql, ';');
    ghost var original := statements;
    ghost var goal := FixStatements(original);
    for i := 0 to |statements|
      invariant |statements| == |original| && statements == goal[..i] + original[i..]
    {
      var stmt := statements[i];
      ghost var before := statements;
      OneMoreFixed(before, original, i);
      var trimmed := TrimSpace(stmt);
      if trimmed != "" {
        var upper := ToUpper(trimmed);
        if Contains(upper, CREATE) && !Contains(upper, GUARD) {
          statements := statements[i := ReplaceFirst(trimmed, CREATE, GUARDED)];
        }
      }
      assert statements == before[i := FixStatement(stmt)];
    }
    assert statements == goal;
    fixed := Join(statements, ';');
  }

  lemma UpperOfSubstring(s: string, sub: string, k: int)
    requires OccursAt(s, sub, k) && ToUpper(sub) == sub
    ensures OccursAt(ToUpper(s), sub, k)
  {
  }

  lemma SplitAtIndex(s: string, sub: string) returns (before: string, after: string)
    requires Contains(s, sub)
    ensures s == before + sub + after
    ensures forall other :: ReplaceFirst(s, sub, other) == before + other + after
  {
    var k := Index(s, sub);
    IndexIsFirst(s, sub);
    before, after := s[..k], s[k + |sub|..];
    assert s == before + s[k..k + |sub|] + after;
  }

  lemma OccursInside(before: string, sub: string, after: string)
    ensures OccursAt(before + sub + after, sub, |before|)
  {
  }

  lemma StaysTrim(before: string, first: string, second: string, after: string)
    requires Trim(before + first + after) && Trim(first) && Trim(second) && first != "" && second != ""
    ensures Trim(before + second + after)
  {
  }

  lemma ReplacedInPlace(t: string, sub: string, other: string) returns (before: string, after: string)
    requires Contains(t, sub) && Trim(t) && Trim(sub) && Trim(other) && sub != "" && other != ""
    ensures t == before + sub + after && ReplaceFirst(t, sub, other) == before + other + after
    ensures Trim(ReplaceFirst(t, sub, other))
  {
    before, after := SplitAtIndex(t, sub);
    StaysTrim(before, sub, other, after);
  }

  lemma ContainsInUpper(prefix: string, sub: string, after: string)
    requires ToUpper(sub) == sub
    ensures Contains(ToUpper(prefix + sub + after), sub)
  {
    OccursInside(prefix, sub, after);
    UpperOfSubstring(prefix + sub + after, sub, |prefix|);
    IndexIsFirst(ToUpper(prefix + sub + after), sub);
  }

  lemma KeywordsAreTrim()
    ensures Trim(CREATE) && Trim(GUARDED) && CREATE != "" && GUARDED != ""
    ensures GUARDED == CREATE + " " + GUARD
    ensures ToUpper(GUARD) == GUARD
  {
  }

  lemma GuardBetween(before: string, after: string)
    ensures before + GUARDED + after == before + CREATE + " " + GUARD + after
    ensures Contains(ToUpper(before + GUARDED + after), GUARD)
  {
    KeywordsAreTrim();
    var prefix := before + CREATE + " ";
    assert before + GUARDED + after == prefix + GUARD + after;
    ContainsInUpper(prefix, GUARD, after);
  }

  /** Where the keyword is written in capitals the guard is inserted right behind it. */
  lemma GuardInserted(stmt: string) returns (before: string, after: string)
    requires NeedsGuard(stmt) && Contains(TrimSpace(stmt), CREATE)
    ensures TrimSpace(stmt) == before + CREATE + after
    ensures FixStatement(stmt) == before + CREATE + " " + GUARD + after
    ensures Trim(FixStatement(stmt)) && Contains(ToUpper(FixStatement(stmt)), GUARD)
  {
    TrimSpaceTrims(stmt);
    KeywordsAreTrim();
    before, after := ReplacedInPlace(TrimSpace(stmt), CREATE, GUARDED);
    GuardBetween(before, after);
  }

  /** What becomes of one statement: it is untouched unless it creates a table without a guard;
      else it is trimmed, and guarded exactly when the keyword is written in capitals. */
  lemma StatementOutcome(stmt: string)
    ensures !NeedsGuard(stmt) ==> FixStatement(stmt) == stmt
    ensures NeedsGuard(stmt) ==> (Contains(ToUpper(FixStatement(stmt)), GUARD) <==> Contains(TrimSpace(stmt), CREATE))
    ensures NeedsGuard(stmt) && !Contains(TrimSpace(stmt), CREATE) ==> FixStatement(stmt) == TrimSpace(stmt)
    ensures NeedsGuard(stmt) && Contains(TrimSpace(stmt), CREATE)
            ==> exists before, after :: TrimSpace(stmt) == before + CREATE + after
                                        && FixStatement(stmt) == before + CREATE + " " + GUARD + after
  {
    TrimSpaceTrims(stmt);
    TrimSpaceTrims(TrimSpace(stmt));
    if NeedsGuard(stmt) && Contains(TrimSpace(stmt), CREATE) {
      var before, after := GuardInserted(stmt);
    }
  }

  /** Text around the first CREATE TABLE in capitals, wherever it stands, for instance behind a
      comment: the guard is put right behind it, unless the text says IF NOT EXISTS somewhere. */
  lemma CapitalIsGuarded(stmt: string, before: string, after: string)
    requires TrimSpace(stmt) == before + "CREATE TABLE" + after
    requires forall j :: j < |before| ==> !OccursAt(TrimSpace(stmt), "CREATE TABLE", j)
    requires forall j :: !OccursAt(ToUpper(TrimSpace(stmt)), "IF NOT EXISTS", j)
    ensures FixStatement(stmt) == before + "CREATE TABLE IF NOT EXISTS" + after
  {
    var t := TrimSpace(stmt);
    OccursInside(before, CREATE, after);
    IndexIsFirst(t, CREATE);
    assert Index(t, CREATE) == |before|;
    KeywordInCapitals();
    UpperOfSubstring(t, CREATE, |before|);
    IndexIsFirst(ToUpper(t), CREATE);
    IndexIsFirst(ToUpper(t), GUARD);
    assert t[..|before|] == before && t[|before| + |CREATE|..] == after;
  }

  lemma KeywordInCapitals()
    ensures ToUpper(CREATE) == CREATE
  {
  }

  /** Text that creates no table in any letter case, or says IF NOT EXISTS somewhere in any letter
      case, or is blank, is left to the letter. */
  lemma OtherTextUntouched(stmt: string)
    requires var upper := ToUpper(TrimSpace(stmt));
             || (forall j :: !OccursAt(upper, "CREATE TABLE", j)) || (exists j :: OccursAt(upper, "IF NOT EXISTS", j))
             || TrimSpace(stmt) == ""
    ensures FixStatement(stmt) == stmt
  {
    var upper := ToUpper(TrimSpace(stmt));
    IndexIsFirst(upper, CREATE);
    IndexIsFirst(upper, GUARD);
  }

  const LOWER_CASE: string := "create table t(x int)"

  lemma LowerCaseInCapitals()
    ensures ToUpper(LOWER_CASE) == CREATE + " T(X INT)"
  {
  }

  lemma LowerCaseLetters()
    ensures Trim(LOWER_CASE) && LOWER_CASE != ""
    ensures CREATE[0] !in LOWER_CASE && GUARD[1] !in CREATE + " T(X INT)"
  {
  }

  /** Such a statement: it needs the guard and does not get it. */
  lemma LowerCaseNotGuarded()
    ensures NeedsGuard(LOWER_CASE) && FixStatement(LOWER_CASE) == LOWER_CASE
  {
    LowerCaseInCapitals();
    LowerCaseLetters();
    TrimSpaceTrims(LOWER_CASE);
    StartsWith(CREATE, " T(X INT)");
    LetterMissing(ToUpper(LOWER_CASE), GUARD, 1);
    LetterMissing(LOWER_CASE, CREATE, 0);
  }

  lemma StatementIdempotent(stmt: string)
    ensures FixStatement(FixStatement(stmt)) == FixStatement(stmt)
  {
    if NeedsGuard(stmt) {
      TrimSpaceTrims(stmt);
      TrimSpaceTrims(FixStatement(stmt));
      if Contains(TrimSpace(stmt), CREATE) {
        var before, after := GuardInserted(stmt);
      }
    }
  }

  lemma ReplacedLetters(s: string, sub: string, other: string, c: char)
    requires c in ReplaceFirst(s, sub, other)
    ensures c in s || c in other
  {
  }

  lemma StatementStaysOne(stmt: string)
    requires ';' !in stmt
    ensures ';' !in FixStatement(stmt)
  {
    TrimSpaceTrims(stmt);
    assert ';' !in GUARDED;
    if NeedsGuard(stmt) && ';' in FixStatement(stmt) {
      ReplacedLetters(TrimSpace(stmt), CREATE, GUARDED, ';');
    }
  }

  /** The rewritten text has the same statements in the same places, each fixed by itself. */
  lemma StatementsPreserved(sql: string)
    ensures Split(FixSql(sql), ';') == FixStatements(Split(sql, ';'))
    ensures |Split(FixSql(sql), ';')| == |Split(sql, ';')|
  {
    var statements := Split(sql, ';');
    forall k | 0 <= k < |statements|
      ensures ';' !in FixStatements(statements)[k]
    {
      StatementStaysOne(statements[k]);
    }
    SplitJoin(FixStatements(statements), ';');
  }

  /** Fixing twice is fixing once. */
  lemma FixSqlIdempotent(sql: string)
    ensures FixSql(FixSql(sql)) == FixSql(sql)
  {
    StatementsPreserved(sql);
    var fixed := FixStatements(Split(sql, ';'));
    forall k | 0 <= k < |fixed|
      ensures FixStatement(fixed[k]) == fixed[k]
    {
      StatementIdempotent(Split(sql, ';')[k]);
    }
    assert FixStatements(fixed) == fixed;
  }

  /** Text in which no statement needs a guard is returned unchanged, to the letter. */
  lemma GuardedTextUntouched(sql: string)
    requires forall stmt :: stmt in Split(sql, ';') ==> !NeedsGuard(stmt)
    ensures FixSql(sql) == sql
  {
    assert FixStatements(Split(sql, ';')) == Split(sql, ';');
    JoinSplit(sql, ';');
  }
}
