/**
 * The text rules of scripts/claude-automation/issue-analyzer.py: the issue type from labels and
 * title, the branch name, the complexity estimate, and the parsing of an issue reference.
 * Character classes (`\w`, `\d`, `str.isdigit`, `str.lower`) are taken over ASCII.
 */
module IssueAnalyzer {
  import opened Wrappers
  import opened Text

  // ---------------------------------------------------------------------------------------
  // IssueInfo.issue_type

  const IssueTypes: set<string> := {"fix", "enhancement", "feature", "docs", "test"}

  /** `any(label in words for label in labels)`. */
  predicate AnyLabelIn(labels: seq<string>, words: seq<string>) {
    exists l :: l in labels && l in words
  }

  /** `any(word in text for word in words)`: some word occurs in the text. */
  predicate MentionsAny(text: string, words: seq<string>) {
    exists w :: w in words && Contains(text, w)
  }

  const LabelWords: seq<string> :=
    ["bug", "fix", "enhancement", "improvement", "feature", "new", "docs", "documentation", "test"]

  /** The title rules, applied to the lower-cased title; `feature` when none applies. */
  function TitleType(titleLower: string): (t: string)
    ensures t in {"fix", "feature", "enhancement"}
  {
    if MentionsAny(titleLower, ["fix", "bug", "error", "issue"]) then "fix"
    else if MentionsAny(titleLower, ["add", "new", "create", "implement"]) then "feature"
    else if MentionsAny(titleLower, ["improve", "enhance", "update"]) then "enhancement"
    else "feature"
  }

  /** `issue_type`: the label rules in order, then the title rules. */
  function IssueType(labels: seq<string>, title: string): (t: string)
    ensures t in IssueTypes
    ensures AnyLabelIn(labels, ["bug", "fix"]) ==> t == "fix"
    ensures t == "docs" ==> AnyLabelIn(labels, ["docs", "documentation"])
    ensures t == "test" ==> "test" in labels
    ensures !AnyLabelIn(labels, LabelWords) ==> t == TitleType(Lower(title))
  {
    if AnyLabelIn(labels, ["bug", "fix"]) then "fix"
    else if AnyLabelIn(labels, ["enhancement", "improvement"]) then "enhancement"
    else if AnyLabelIn(labels, ["feature", "new"]) then "feature"
    else if AnyLabelIn(labels, ["docs", "documentation"]) then "docs"
    else if "test" in labels then "test"
    else TitleType(Lower(title))
  }

  /** Once any label rule applies, the title makes no difference. */
  lemma LabelsOverrideTitle(labels: seq<string>, title1: string, title2: string)
    requires AnyLabelIn(labels, LabelWords)
    ensures IssueType(labels, title1) == IssueType(labels, title2)
  {
    var l :| l in labels && l in LabelWords;
    if !AnyLabelIn(labels, ["bug", "fix"]) && !AnyLabelIn(labels, ["enhancement", "improvement"])
      && !AnyLabelIn(labels, ["feature", "new"]) && !AnyLabelIn(labels, ["docs", "documentation"]) {
      assert l == "test";
    }
  }

  /** The label rules of `issue_type` in the order they are tried, each with the type it gives. */
  const LabelRules: seq<(seq<string>, string)> := [
    (["bug", "fix"], "fix"),
    (["enhancement", "improvement"], "enhancement"),
    (["feature", "new"], "feature"),
    (["docs", "documentation"], "docs"),
    (["test"], "test")]

  /** The title keyword rules, tried in order on the lower-cased title once no label rule applies. */
  const TitleRules: seq<(seq<string>, string)> := [
    (["fix", "bug", "error", "issue"], "fix"),
    (["add", "new", "create", "implement"], "feature"),
    (["improve", "enhance", "update"], "enhancement")]

  /** The first label rule that applies decides, whatever the later rules and the title say. */
  lemma FirstLabelRuleWins(labels: seq<string>, title: string, j: nat)
    requires j < |LabelRules| && AnyLabelIn(labels, LabelRules[j].0)
    requires forall k :: 0 <= k < j ==> !AnyLabelIn(labels, LabelRules[k].0)
    ensures IssueType(labels, title) == LabelRules[j].1
  {
    if j > 0 {
      assert !AnyLabelIn(labels, LabelRules[0].0);
    }
    if j > 1 {
      assert !AnyLabelIn(labels, LabelRules[1].0);
    }
    if j > 2 {
      assert !AnyLabelIn(labels, LabelRules[2].0);
    }
    if j > 3 {
      assert !AnyLabelIn(labels, LabelRules[3].0);
    }
    if j == 4 {
      var l :| l in labels && l in LabelRules[4].0;
      assert l == "test";
    }
  }

  /** Without any label rule, the first title rule that applies decides. */
  lemma FirstTitleRuleWins(labels: seq<string>, title: string, j: nat)
    requires forall k :: 0 <= k < |LabelRules| ==> !AnyLabelIn(labels, LabelRules[k].0)
    requires j < |TitleRules| && MentionsAny(Lower(title), TitleRules[j].0)
    requires forall k :: 0 <= k < j ==> !MentionsAny(Lower(title), TitleRules[k].0)
    ensures IssueType(labels, title) == TitleRules[j].1
  {
    NoLabelRule(labels);
    if j > 0 {
      assert !MentionsAny(Lower(title), TitleRules[0].0);
    }
    if j > 1 {
      assert !MentionsAny(Lower(title), TitleRules[1].0);
    }
  }

  /** When no rule applies at all, the issue is a feature. */
  lemma NoRuleMeansFeature(labels: seq<string>, title: string)
    requires forall k :: 0 <= k < |LabelRules| ==> !AnyLabelIn(labels, LabelRules[k].0)
    requires forall k :: 0 <= k < |TitleRules| ==> !MentionsAny(Lower(title), TitleRules[k].0)
    ensures IssueType(labels, title) == "feature"
  {
    NoLabelRule(labels);
    assert !MentionsAny(Lower(title), TitleRules[0].0);
    assert !MentionsAny(Lower(title), TitleRules[1].0);
    assert !MentionsAny(Lower(title), TitleRules[2].0);
  }

  lemma NoLabelRule(labels: seq<string>)
    requires forall k :: 0 <= k < |LabelRules| ==> !AnyLabelIn(labels, LabelRules[k].0)
    ensures "test" !in labels
    ensures !AnyLabelIn(labels, ["bug", "fix"]) && !AnyLabelIn(labels, ["enhancement", "improvement"])
    ensures !AnyLabelIn(labels, ["feature", "new"]) && !AnyLabelIn(labels, ["docs", "documentation"])
  {
    assert !AnyLabelIn(labels, LabelRules[0].0);
    assert !AnyLabelIn(labels, LabelRules[1].0);
    assert !AnyLabelIn(labels, LabelRules[2].0);
    assert !AnyLabelIn(labels, LabelRules[3].0);
    assert !AnyLabelIn(labels, LabelRules[4].0);
    assert "test" in LabelRules[4].0;
  }

  /**
   * A `bug` label wins over a title that reads like an enhancement, `Fix typo` is a fix, and an
   * `improvement` label wins over a later `feature` label.
   */
  lemma IssueTypeExamples()
    ensures IssueType(["bug"], "Improve the docs") == "fix"
    ensures IssueType([], "Fix typo") == "fix"
    ensures IssueType(["question"], "Something") == TitleType("something")
  {
    assert "bug" in ["bug"];
    var t := Lower("Fix typo");
    assert t == "fix typo";
    assert "fix" <= t;
    assert Contains(t, "fix");
    assert !AnyLabelIn(["question"], LabelWords);
    assert Lower("Something") == "something";
  }

  /** "improvement" is tested before "feature": the enhancement rule wins, whatever the title. */
  lemma EnhancementBeforeFeature(labels: seq<string>, title: string)
    requires labels == ["feature", "improvement"]
    ensures IssueType(labels, title) == "enhancement"
  {
    assert "improvement" in labels && "improvement" in LabelRules[1].0;
    assert !AnyLabelIn(labels, LabelRules[0].0);
    FirstLabelRuleWins(labels, title, 1);
  }

  // ---------------------------------------------------------------------------------------
  // IssueInfo.branch_name

  predicate IsWordChar(c: char) {
    IsLowerLetter(c) || IsUpper(c) || IsDigit(c) || c == '_'
  }

  /** What `[^\w\s-]` does not remove. */
  predicate Kept(c: char) {
    IsWordChar(c) || IsSpace(c) || c == '-'
  }

  /** What a cleaned title is made of. */
  predicate IsBranchChar(c: char) {
    IsLowerLetter(c) || IsDigit(c) || c == '_' || c == '-'
  }

  /** `re.sub(r'[^\w\s-]', '', s)`. */
  function RemoveDisallowed(s: string): (r: string)
    ensures |r| <= |s|
    ensures forall i :: 0 <= i < |r| ==> Kept(r[i]) && r[i] in s
    ensures (forall i :: 0 <= i < |s| ==> Kept(s[i])) ==> r == s
  {
    if |s| == 0 then []
    else (if Kept(s[0]) then [s[0]] else []) + RemoveDisallowed(s[1..])
  }

  /** `re.sub(r'\s+', '-', s)`: every run of whitespace becomes one hyphen. */
  function DashRuns(s: string): (r: string)
    ensures forall i :: 0 <= i < |r| ==> !IsSpace(r[i]) && (r[i] == '-' || r[i] in s)
    ensures (forall i :: 0 <= i < |s| ==> !IsSpace(s[i])) ==> r == s
    decreases |s|
  {
    if |s| == 0 then []
    else if IsSpace(s[0]) then "-" + DashRuns(TrimStart(s[1..]))
    else [s[0]] + DashRuns(s[1..])
  }

  const MaxTitleLength := 50

  /** The cleaned title before the cut: lower-cased, filtered, stripped and dashed. */
  function Dashed(title: string): string {
    DashRuns(Strip(RemoveDisallowed(Lower(title))))
  }

  /** The characters of `lower` that survive the filter are lower-case and kept. */
  lemma {:induction false} RemoveDisallowedOfLower(s: string)
    requires forall i :: 0 <= i < |s| ==> !IsUpper(s[i])
    ensures forall i :: 0 <= i < |RemoveDisallowed(s)| ==> Kept(RemoveDisallowed(s)[i]) && !IsUpper(RemoveDisallowed(s)[i])
  {
    if |s| > 0 {
      RemoveDisallowedOfLower(s[1..]);
    }
  }

  predicate AllowedChars(s: string) {
    forall i :: 0 <= i < |s| ==> Kept(s[i]) && !IsUpper(s[i])
  }

  lemma StripAllowed(s: string)
    requires AllowedChars(s)
    ensures AllowedChars(Strip(s))
  {
    var k := StripIsSlice(s);
    forall i | 0 <= i < |Strip(s)| ensures Kept(Strip(s)[i]) && !IsUpper(Strip(s)[i]) {
      assert Strip(s)[i] == s[k + i];
    }
  }

  /** Dashing allowed characters leaves only branch characters. */
  lemma {:induction false} DashRunsBranchChars(s: string)
    requires AllowedChars(s)
    ensures forall i :: 0 <= i < |DashRuns(s)| ==> IsBranchChar(DashRuns(s)[i])
    decreases |s|
  {
    if |s| > 0 {
      if IsSpace(s[0]) {
        var t := TrimStart(s[1..]);
        AllowedSuffix(s, |s| - |t|);
        DashRunsBranchChars(t);
        BranchCharsConcat("-", DashRuns(t));
      } else {
        AllowedSuffix(s, 1);
        DashRunsBranchChars(s[1..]);
        BranchCharsConcat([s[0]], DashRuns(s[1..]));
      }
    }
  }

  lemma AllowedSuffix(s: string, k: nat)
    requires AllowedChars(s) && k <= |s|
    ensures AllowedChars(s[k..])
  {
    forall i | 0 <= i < |s[k..]| ensures Kept(s[k..][i]) && !IsUpper(s[k..][i]) {
      assert s[k..][i] == s[k + i];
    }
  }

  lemma BranchCharsConcat(p: string, q: string)
    requires forall i :: 0 <= i < |p| ==> IsBranchChar(p[i])
    requires forall i :: 0 <= i < |q| ==> IsBranchChar(q[i])
    ensures forall i :: 0 <= i < |p + q| ==> IsBranchChar((p + q)[i])
  {
    forall i | 0 <= i < |p + q| ensures IsBranchChar((p + q)[i]) {
      if i < |p| {
        assert (p + q)[i] == p[i];
      } else {
        assert (p + q)[i] == q[i - |p|];
      }
    }
  }

  lemma DashedBranchChars(title: string)
    ensures forall i :: 0 <= i < |Dashed(title)| ==> IsBranchChar(Dashed(title)[i])
  {
    RemoveDisallowedOfLower(Lower(title));
    StripAllowed(RemoveDisallowed(Lower(title)));
    DashRunsBranchChars(Strip(RemoveDisallowed(Lower(title))));
  }

  /** The cleaned title of `branch_name`: the dashed title cut to 50 characters. */
  function CleanTitle(title: string): (clean: string)
    ensures |clean| <= MaxTitleLength
    ensures forall i :: 0 <= i < |clean| ==> IsBranchChar(clean[i])
    ensures clean <= Dashed(title)
    ensures |clean| == if |Dashed(title)| <= MaxTitleLength then |Dashed(title)| else MaxTitleLength
  {
    var dashed := Dashed(title);
    DashedBranchChars(title);
    if |dashed| <= MaxTitleLength then dashed else dashed[..MaxTitleLength]
  }

  /** The filter works character by character: it distributes over concatenation... */
  lemma {:induction false} RemoveDisallowedConcat(a: string, b: string)
    ensures RemoveDisallowed(a + b) == RemoveDisallowed(a) + RemoveDisallowed(b)
  {
    if |a| == 0 {
      assert a + b == b;
    } else {
      assert (a + b)[1..] == a[1..] + b;
      RemoveDisallowedConcat(a[1..], b);
    }
  }

  /** ...and keeps a single character exactly when it is a word character, whitespace or a hyphen. */
  lemma RemoveDisallowedChar(c: char)
    ensures RemoveDisallowed([c]) == if Kept(c) then [c] else []
  {
    assert [c][1..] == [];
  }

  predicate NoSpace(s: string) {
    forall i :: 0 <= i < |s| ==> !IsSpace(s[i])
  }

  predicate AllSpace(s: string) {
    forall i :: 0 <= i < |s| ==> IsSpace(s[i])
  }

  /** Words separated by runs of whitespace: `words[0] + gaps[0] + words[1] + ...`. */
  function Interleave(words: seq<string>, gaps: seq<string>): (s: string)
    requires |words| >= 1 && |gaps| == |words| - 1
    ensures |s| >= |words[0]| && s[..|words[0]|] == words[0]
  {
    if |words| == 1 then words[0] else words[0] + gaps[0] + Interleave(words[1..], gaps[1..])
  }

  lemma {:induction false} TrimStartSpaces(g: string, s: string)
    requires AllSpace(g) && (s == [] || !IsSpace(s[0]))
    ensures TrimStart(g + s) == s
  {
    if |g| == 0 {
      assert g + s == s;
    } else {
      assert (g + s)[1..] == g[1..] + s;
      TrimStartSpaces(g[1..], s);
    }
  }

  lemma {:induction false} DashRunsAfterWord(w: string, s: string)
    requires NoSpace(w)
    ensures DashRuns(w + s) == w + DashRuns(s)
  {
    if |w| == 0 {
      assert w + s == s;
    } else {
      NoSpaceTail(w);
      DashRunsAfterWord(w[1..], s);
      DashRunsWordStep(w, s);
    }
  }

  lemma DashRunsWordStep(w: string, s: string)
    requires |w| > 0 && !IsSpace(w[0])
    requires DashRuns(w[1..] + s) == w[1..] + DashRuns(s)
    ensures DashRuns(w + s) == w + DashRuns(s)
  {
    var c, v := w[0], w[1..];
    HeadTail(w);
    ConsAssoc(c, v, s);
    DashRunsCons(c, v + s);
    ConsAssoc(c, v, DashRuns(s));
  }

  lemma HeadTail(w: string)
    requires |w| > 0
    ensures w == [w[0]] + w[1..]
  {
  }

  lemma ConsAssoc(c: char, v: string, d: string)
    ensures [c] + (v + d) == ([c] + v) + d
  {
  }

  lemma NoSpaceTail(w: string)
    requires |w| > 0 && NoSpace(w)
    ensures NoSpace(w[1..])
  {
    forall i | 0 <= i < |w[1..]| ensures !IsSpace(w[1..][i]) {
      assert w[1..][i] == w[i + 1];
    }
  }

  lemma DashRunsCons(c: char, t: string)
    requires !IsSpace(c)
    ensures DashRuns([c] + t) == [c] + DashRuns(t)
  {
    assert ([c] + t)[1..] == t;
  }

  lemma DashRunsAfterGap(g: string, s: string)
    requires |g| > 0 && AllSpace(g) && (s == [] || !IsSpace(s[0]))
    ensures DashRuns(g + s) == "-" + DashRuns(s)
  {
    assert (g + s)[1..] == g[1..] + s;
    TrimStartSpaces(g[1..], s);
  }

  /** Each run of whitespace between words becomes exactly one hyphen. */
  lemma {:induction false} DashRunsOfWords(words: seq<string>, gaps: seq<string>)
    requires |words| >= 1 && |gaps| == |words| - 1
    requires forall i :: 0 <= i < |words| ==> |words[i]| > 0 && NoSpace(words[i])
    requires forall i :: 0 <= i < |gaps| ==> |gaps[i]| > 0 && AllSpace(gaps[i])
    ensures DashRuns(Interleave(words, gaps)) == Join(words, '-')
  {
    if |words| > 1 {
      var rest := Interleave(words[1..], gaps[1..]);
      DashRunsOfWords(words[1..], gaps[1..]);
      assert rest[0] == words[1][0];
      assert words[0] + gaps[0] + rest == words[0] + (gaps[0] + rest);
      DashRunsAfterWord(words[0], gaps[0] + rest);
      DashRunsAfterGap(gaps[0], rest);
    }
  }

  /** Words of branch characters between whitespace runs: the characters and both ends. */
  lemma {:induction false} InterleaveChars(words: seq<string>, gaps: seq<string>)
    requires |words| >= 1 && |gaps| == |words| - 1
    requires forall i :: 0 <= i < |words| ==> |words[i]| > 0 && forall j :: 0 <= j < |words[i]| ==> IsBranchChar(words[i][j])
    requires forall i :: 0 <= i < |gaps| ==> AllSpace(gaps[i])
    ensures var s := Interleave(words, gaps);
      && |s| > 0 && IsBranchChar(s[0]) && IsBranchChar(s[|s| - 1])
      && forall i :: 0 <= i < |s| ==> IsBranchChar(s[i]) || IsSpace(s[i])
  {
    var s := Interleave(words, gaps);
    assert s[0] == words[0][0];
    if |words| > 1 {
      var rest := Interleave(words[1..], gaps[1..]);
      InterleaveChars(words[1..], gaps[1..]);
      var w, g := words[0], gaps[0];
      assert s == w + g + rest;
      forall i | 0 <= i < |s| ensures IsBranchChar(s[i]) || IsSpace(s[i]) {
        if i < |w| {
          assert s[i] == w[i];
        } else if i < |w| + |g| {
          assert s[i] == g[i - |w|];
        } else {
          assert s[i] == rest[i - |w| - |g|];
        }
      }
      assert s[|s| - 1] == rest[|rest| - 1];
    }
  }

  /**
   * A title of lower-case words separated by whitespace runs is cleaned to its words joined by
   * single hyphens (then cut to 50 characters).
   */
  lemma DashedOfWords(words: seq<string>, gaps: seq<string>)
    requires |words| >= 1 && |gaps| == |words| - 1
    requires forall i :: 0 <= i < |words| ==> |words[i]| > 0 && forall j :: 0 <= j < |words[i]| ==> IsBranchChar(words[i][j])
    requires forall i :: 0 <= i < |gaps| ==> |gaps[i]| > 0 && AllSpace(gaps[i])
    ensures Dashed(Interleave(words, gaps)) == Join(words, '-')
  {
    var s := Interleave(words, gaps);
    InterleaveChars(words, gaps);
    LowerUnchanged(s);
    assert RemoveDisallowed(s) == s;
    BranchCharNotSpace(s[0]);
    BranchCharNotSpace(s[|s| - 1]);
    StripUnchanged(s);
    forall i | 0 <= i < |words| ensures NoSpace(words[i]) {
      BranchCharsNotSpace(words[i]);
    }
    DashRunsOfWords(words, gaps);
  }

  lemma BranchCharNotSpace(c: char)
    requires IsBranchChar(c)
    ensures !IsSpace(c)
  {
  }

  /** Punctuation goes, letters are lowered, and a double space becomes a single hyphen. */
  lemma CleanTitleExample(title: string)
    requires title == "Fix: Login  fails!"
    ensures CleanTitle(title) == "fix-login-fails"
  {
    var a, b, c, d := "fix", ":", " login  fails", "!";
    ExampleLowered(title, a, b, c, d);
    ExampleKept(a, b, c, d);
    FilterTwoRuns(a, b, c, d);
    ExampleDashed(a, c);
  }

  lemma ExampleLowered(title: string, a: string, b: string, c: string, d: string)
    requires title == "Fix: Login  fails!"
    requires a == "fix" && b == ":" && c == " login  fails" && d == "!"
    ensures Lower(title) == a + b + c + d
  {
  }

  lemma ExampleKept(a: string, b: string, c: string, d: string)
    requires a == "fix" && b == ":" && c == " login  fails" && d == "!"
    ensures forall i :: 0 <= i < |a| ==> Kept(a[i])
    ensures forall i :: 0 <= i < |c| ==> Kept(c[i])
    ensures |b| == 1 && !Kept(b[0]) && |d| == 1 && !Kept(d[0])
  {
  }

  /** Two runs of kept characters, each followed by a removed character, filter to the two runs. */
  lemma FilterTwoRuns(a: string, b: string, c: string, d: string)
    requires forall i :: 0 <= i < |a| ==> Kept(a[i])
    requires forall i :: 0 <= i < |c| ==> Kept(c[i])
    requires |b| == 1 && !Kept(b[0]) && |d| == 1 && !Kept(d[0])
    ensures RemoveDisallowed(a + b + c + d) == a + c
  {
    Regroup(a, b, c, d);
    RemoveDisallowedConcat(a + b, c + d);
    KeptThenDropped(a, b);
    KeptThenDropped(c, d);
  }

  lemma Regroup(a: string, b: string, c: string, d: string)
    ensures a + b + c + d == (a + b) + (c + d)
  {
  }

  /** A run of kept characters followed by one removed character filters to the run. */
  lemma KeptThenDropped(a: string, b: string)
    requires forall i :: 0 <= i < |a| ==> Kept(a[i])
    requires |b| == 1 && !Kept(b[0])
    ensures RemoveDisallowed(a + b) == a
  {
    RemoveDisallowedConcat(a, b);
    RemoveDisallowedChar(b[0]);
    assert b == [b[0]];
  }

  lemma ExampleDashed(a: string, c: string)
    requires a == "fix" && c == " login  fails"
    ensures DashRuns(Strip(a + c)) == "fix-login-fails"
  {
    ExampleStripped(a, c);
    var words, gaps := ["fix", "login", "fails"], [" ", "  "];
    ExampleInterleave(words, gaps, a, c);
    ExampleWordsAndGaps(words, gaps);
    DashRunsOfWords(words, gaps);
    ExampleJoin(words);
  }

  lemma ExampleStripped(a: string, c: string)
    requires a == "fix" && c == " login  fails"
    ensures Strip(a + c) == a + c
  {
    var filtered := a + c;
    assert filtered[0] == a[0] && filtered[|filtered| - 1] == c[|c| - 1];
    StripUnchanged(filtered);
  }

  lemma ExampleWordsAndGaps(words: seq<string>, gaps: seq<string>)
    requires words == ["fix", "login", "fails"] && gaps == [" ", "  "]
    ensures forall i :: 0 <= i < |words| ==> |words[i]| > 0 && NoSpace(words[i])
    ensures forall i :: 0 <= i < |gaps| ==> |gaps[i]| > 0 && AllSpace(gaps[i])
  {
  }

  lemma ExampleJoin(words: seq<string>)
    requires words == ["fix", "login", "fails"]
    ensures Join(words, '-') == "fix-login-fails"
  {
    assert Join(words[2..], '-') == "fails";
    assert Join(words[1..], '-') == "login" + "-" + "fails";
  }

  lemma ExampleInterleave(words: seq<string>, gaps: seq<string>, a: string, c: string)
    requires words == ["fix", "login", "fails"] && gaps == [" ", "  "]
    requires a == "fix" && c == " login  fails"
    ensures Interleave(words, gaps) == a + c
  {
    assert Interleave(words[2..], gaps[2..]) == "fails";
  }

  /** Cleaning a cleaned title changes nothing. */
  lemma CleanTitleIdempotent(title: string)
    ensures CleanTitle(CleanTitle(title)) == CleanTitle(title)
  {
    var c := CleanTitle(title);
    assert forall i :: 0 <= i < |c| ==> IsBranchChar(c[i]);
    CleanOfBranchChars(c);
  }

  /** A title made of branch characters only, and short enough, is its own cleaned form. */
  lemma CleanOfBranchChars(c: string)
    requires |c| <= MaxTitleLength && forall i :: 0 <= i < |c| ==> IsBranchChar(c[i])
    ensures CleanTitle(c) == c
  {
    BranchCharsUnchanged(c);
    assert Dashed(c) == c;
  }

  /** Each stage of the cleaning leaves a string of branch characters as it is. */
  lemma BranchCharsUnchanged(c: string)
    requires forall i :: 0 <= i < |c| ==> IsBranchChar(c[i])
    ensures Lower(c) == c && RemoveDisallowed(c) == c && Strip(c) == c && DashRuns(c) == c
  {
    BranchCharsKept(c);
    LowerUnchanged(c);
    assert RemoveDisallowed(c) == c;
    BranchCharsNotSpace(c);
    assert DashRuns(c) == c;
    if |c| > 0 {
      BranchCharNotSpace(c[0]);
      BranchCharNotSpace(c[|c| - 1]);
    }
    StripUnchanged(c);
  }

  lemma BranchCharsKept(c: string)
    requires forall i :: 0 <= i < |c| ==> IsBranchChar(c[i])
    ensures forall i :: 0 <= i < |c| ==> !IsUpper(c[i]) && Kept(c[i])
  {
  }

  lemma BranchCharsNotSpace(c: string)
    requires forall i :: 0 <= i < |c| ==> IsBranchChar(c[i])
    ensures forall i :: 0 <= i < |c| ==> !IsSpace(c[i])
  {
    forall i | 0 <= i < |c| ensures !IsSpace(c[i]) {
      assert IsBranchChar(c[i]);
    }
  }

  lemma LowerUnchanged(s: string)
    requires forall i :: 0 <= i < |s| ==> !IsUpper(s[i])
    ensures Lower(s) == s
  {
    assert forall i :: 0 <= i < |s| ==> Lower(s)[i] == s[i];
  }

  /**
   * `branch_name`: the issue type, a slash, then `issue-<number>-<clean title>`. The slash after
   * the type is the only one, so splitting at it gives the two parts back.
   */
  function BranchName(number: int, labels: seq<string>, title: string): (b: string)
    ensures Split(b, '/') == [IssueType(labels, title), "issue-" + IntToDecimal(number) + "-" + CleanTitle(title)]
  {
    var t, d, c := IssueType(labels, title), IntToDecimal(number), CleanTitle(title);
    SplitBranchName(t, number, c);
    t + "/issue-" + d + "-" + c
  }

  lemma NoSlashInParts(t: string, number: int, clean: string)
    requires t in IssueTypes
    requires forall i :: 0 <= i < |clean| ==> IsBranchChar(clean[i])
    ensures '/' !in t && '/' !in "issue-" + IntToDecimal(number) + "-" + clean
  {
    var d := IntToDecimal(number);
    if number < 0 {
      assert d == [d[0]] + d[1..];
    }
    assert '/' !in d;
    assert forall i :: 0 <= i < |clean| ==> clean[i] != '/';
    assert '/' !in clean;
  }

  lemma SlashThenRest(t: string, d: string, c: string)
    ensures t + "/issue-" + d + "-" + c == t + ['/'] + ("issue-" + d + "-" + c)
  {
    assert "/issue-" == ['/'] + "issue-";
  }

  lemma SplitBranchName(t: string, number: int, clean: string)
    requires t in IssueTypes
    requires forall i :: 0 <= i < |clean| ==> IsBranchChar(clean[i])
    ensures Split(t + "/issue-" + IntToDecimal(number) + "-" + clean, '/') ==
      [t, "issue-" + IntToDecimal(number) + "-" + clean]
  {
    var rest := "issue-" + IntToDecimal(number) + "-" + clean;
    NoSlashInParts(t, number, clean);
    SlashThenRest(t, IntToDecimal(number), clean);
    SplitAtSep(t, rest, '/');
    SplitWithoutSep(rest, '/');
  }

  // ---------------------------------------------------------------------------------------
  // GitHubIssueAnalyzer.analyze_complexity

  /** `complexity_indicators`, in dictionary order. */
  const Indicators: seq<(string, seq<string>)> := [
    ("simple", ["typo", "documentation", "readme", "comment"]),
    ("medium", ["feature", "endpoint", "view", "model", "form"]),
    ("complex", ["authentication", "deployment", "database", "migration", "security"])]

  /** Without any keyword, the number of requirements decides. */
  function FallbackComplexity(requirementCount: nat): (c: string)
    ensures c in {"simple", "medium", "complex"}
    ensures c == "simple" <==> requirementCount <= 2
    ensures c == "medium" <==> 2 < requirementCount <= 5
    ensures c == "complex" <==> requirementCount > 5
  {
    if requirementCount <= 2 then "simple" else if requirementCount <= 5 then "medium" else "complex"
  }

  /** The first category, from index `i` on, that has a keyword in the text. */
  function FirstCategory(text: string, i: nat): (r: Option<string>)
    requires i <= |Indicators|
    decreases |Indicators| - i
  {
    if i == |Indicators| then None
    else if MentionsAny(text, Indicators[i].1) then Some(Indicators[i].0)
    else FirstCategory(text, i + 1)
  }

  /** The complexity `analyze_complexity` reports for a title, body and requirement count. */
  function Complexity(title: string, body: string, requirementCount: nat): (c: string)
    ensures c in {"simple", "medium", "complex"}
  {
    match FirstCategory(Lower(title + " " + body), 0)
    case Some(category) => category
    case None => FallbackComplexity(requirementCount)
  }

  /** `analyze_complexity`: the categories in order, the first with a keyword wins. */
  method AnalyzeComplexity(title: string, body: string, requirementCount: nat) returns (c: string)
    ensures c == Complexity(title, body, requirementCount)
  {
    var text := Lower(title + " " + body);
    for i := 0 to |Indicators|
      invariant FirstCategory(text, 0) == FirstCategory(text, i)
    {
      var complexity := Indicators[i].0;
      var keywords := Indicators[i].1;
      var found := false;
      for k := 0 to |keywords|
        invariant found <==> exists m :: 0 <= m < k && Contains(text, keywords[m])
      {
        if Contains(text, keywords[k]) {
          found := true;
        }
      }
      assert found <==> MentionsAny(text, keywords);
      if found {
        assert FirstCategory(text, i) == Some(complexity);
        return complexity;
      }
      assert FirstCategory(text, i) == FirstCategory(text, i + 1);
    }
    if requirementCount <= 2 {
      c := "simple";
    } else if requirementCount <= 5 {
      c := "medium";
    } else {
      c := "complex";
    }
  }

  lemma {:induction false} FirstCategoryFrom(text: string, i: nat, j: nat)
    requires i <= j < |Indicators| && MentionsAny(text, Indicators[j].1)
    requires forall k :: i <= k < j ==> !MentionsAny(text, Indicators[k].1)
    ensures FirstCategory(text, i) == Some(Indicators[j].0)
    decreases j - i
  {
    if i < j {
      FirstCategoryFrom(text, i + 1, j);
    }
  }

  lemma {:induction false} NoCategoryFrom(text: string, i: nat)
    requires i <= |Indicators|
    requires forall k :: i <= k < |Indicators| ==> !MentionsAny(text, Indicators[k].1)
    ensures FirstCategory(text, i) == None
    decreases |Indicators| - i
  {
    if i < |Indicators| {
      NoCategoryFrom(text, i + 1);
    }
  }

  /**
   * The categories are tried in the order simple, medium, complex: the first one with a keyword
   * in the lower-cased title and body decides, whatever the later ones or the count say.
   */
  lemma FirstKeywordCategoryWins(title: string, body: string, requirementCount: nat, j: nat)
    requires j < |Indicators| && MentionsAny(Lower(title + " " + body), Indicators[j].1)
    requires forall k :: 0 <= k < j ==> !MentionsAny(Lower(title + " " + body), Indicators[k].1)
    ensures Complexity(title, body, requirementCount) == Indicators[j].0
  {
    FirstCategoryFrom(Lower(title + " " + body), 0, j);
  }

  /** With no keyword of any category, the requirement count decides. */
  lemma NoKeywordUsesCount(title: string, body: string, requirementCount: nat)
    requires forall k :: 0 <= k < |Indicators| ==> !MentionsAny(Lower(title + " " + body), Indicators[k].1)
    ensures Complexity(title, body, requirementCount) == FallbackComplexity(requirementCount)
  {
    NoCategoryFrom(Lower(title + " " + body), 0);
  }

  /** Without keywords, more requirements never mean a simpler issue. */
  lemma FallbackMonotone(n1: nat, n2: nat)
    requires n1 <= n2
    ensures FallbackComplexity(n1) == "complex" ==> FallbackComplexity(n2) == "complex"
    ensures FallbackComplexity(n2) == "simple" ==> FallbackComplexity(n1) == "simple"
  {
  }

  // ---------------------------------------------------------------------------------------
  // parse_issue_reference

  /** The length of the longest run of ASCII digits starting at `i`. */
  function DigitRun(s: string, i: nat): (n: nat)
    requires i <= |s|
    ensures i + n <= |s|
    ensures i + n < |s| ==> !IsDigit(s[i + n])
    decreases |s| - i
  {
    if i < |s| && IsDigit(s[i]) then 1 + DigitRun(s, i + 1) else 0
  }

  /** Every character of that run is a digit. */
  lemma {:induction false} DigitRunDigits(s: string, i: nat)
    requires i <= |s|
    ensures forall k :: i <= k < i + DigitRun(s, i) ==> IsDigit(s[k])
    decreases |s| - i
  {
    if i < |s| && IsDigit(s[i]) {
      DigitRunDigits(s, i + 1);
    }
  }

  /** The length of the longest run without a slash starting at `i`. */
  function NonSlashRun(s: string, i: nat): (n: nat)
    requires i <= |s|
    ensures i + n <= |s|
    ensures i + n < |s| ==> s[i + n] == '/'
    decreases |s| - i
  {
    if i < |s| && s[i] != '/' then 1 + NonSlashRun(s, i + 1) else 0
  }

  /** No character of that run is a slash. */
  lemma {:induction false} NonSlashRunChars(s: string, i: nat)
    requires i <= |s|
    ensures forall k :: i <= k < i + NonSlashRun(s, i) ==> s[k] != '/'
    decreases |s| - i
  {
    if i < |s| && s[i] != '/' {
      NonSlashRunChars(s, i + 1);
    }
  }

  const GithubPrefix := "github.com/"
  const IssuesInfix := "/issues/"

  /** The digits `github\.com/[^/]+/[^/]+/issues/(\d+)` captures when it matches at `i`. */
  function UrlMatchAt(s: string, i: nat): (m: Option<string>)
    requires i <= |s|
    ensures m.Some? ==> |m.value| > 0 && AllDigits(m.value)
  {
    UrlFrom(s, i, 0)
  }

  /**
   * The rest of the URL pattern from `stage` on, at `i`: 0 is `github\.com/`, 1 the owner
   * `[^/]+/`, 2 the repository `[^/]+` and `/issues/`, 3 the captured `\d+`.
   */
  function UrlFrom(s: string, i: nat, stage: nat): (m: Option<string>)
    requires i <= |s| && stage <= 3
    ensures m.Some? ==> |m.value| > 0 && AllDigits(m.value)
    decreases 3 - stage
  {
    if stage == 0 then
      if i + |GithubPrefix| <= |s| && s[i..i + |GithubPrefix|] == GithubPrefix then UrlFrom(s, i + |GithubPrefix|, 1)
      else None
    else if stage == 1 then
      var ownerLength := NonSlashRun(s, i);
      if ownerLength == 0 || i + ownerLength == |s| then None
      else UrlFrom(s, i + ownerLength + 1, 2)
    else if stage == 2 then
      var repoLength := NonSlashRun(s, i);
      var infix := i + repoLength;
      if repoLength == 0 || !(infix + |IssuesInfix| <= |s| && s[infix..infix + |IssuesInfix|] == IssuesInfix) then None
      else UrlFrom(s, infix + |IssuesInfix|, 3)
    else
      var n := DigitRun(s, i);
      DigitRunDigits(s, i);
      if n == 0 then None else Some(s[i..i + n])
  }

  /** The digits `#(\d+)` captures when it matches at `i`. */
  function HashMatchAt(s: string, i: nat): (m: Option<string>)
    requires i <= |s|
    ensures m.Some? ==> |m.value| > 0 && AllDigits(m.value)
  {
    if i < |s| && s[i] == '#' && DigitRun(s, i + 1) > 0 then
      DigitRunDigits(s, i + 1);
      Some(s[i + 1..i + 1 + DigitRun(s, i + 1)])
    else None
  }

  /**
   * `re.search` once the pattern has been tried at every position: `ms[k]` is the match that
   * starts at `k`, and the search returns the first one from `i` on.
   */
  function FirstMatch(ms: seq<Option<string>>, i: nat): Option<string>
    requires i <= |ms|
    decreases |ms| - i
  {
    if i == |ms| then None
    else if ms[i].Some? then ms[i]
    else FirstMatch(ms, i + 1)
  }

  /** The search returns the leftmost match, and returns none only where no position matches. */
  lemma {:induction false} FirstMatchLeftmost(ms: seq<Option<string>>, i: nat)
    requires i <= |ms|
    ensures FirstMatch(ms, i).Some? ==>
      exists j :: i <= j < |ms| && ms[j] == FirstMatch(ms, i) && forall k :: i <= k < j ==> ms[k].None?
    ensures FirstMatch(ms, i).None? ==> forall k :: i <= k < |ms| ==> ms[k].None?
    decreases |ms| - i
  {
    if i < |ms| && ms[i].None? {
      FirstMatchLeftmost(ms, i + 1);
      if FirstMatch(ms, i + 1).Some? {
        var j :| i + 1 <= j < |ms| && ms[j] == FirstMatch(ms, i + 1) && forall k :: i + 1 <= k < j ==> ms[k].None?;
        assert forall k :: i <= k < j ==> ms[k].None?;
      }
    }
  }

  /** Positions where no match starts are skipped by the search. */
  lemma {:induction false} FirstMatchSkips(ms: seq<Option<string>>, i: nat, j: nat)
    requires i <= j <= |ms|
    requires forall k :: i <= k < j ==> ms[k].None?
    ensures FirstMatch(ms, i) == FirstMatch(ms, j)
    decreases j - i
  {
    if i < j {
      FirstMatchSkips(ms, i + 1, j);
    }
  }

  /** The URL pattern tried at every position of `s`, the end included. */
  function UrlMatches(s: string): (ms: seq<Option<string>>)
    ensures |ms| == |s| + 1
    ensures forall k :: 0 <= k <= |s| ==> ms[k] == UrlMatchAt(s, k)
  {
    seq(|s| + 1, k requires 0 <= k <= |s| => UrlMatchAt(s, k))
  }

  /** The `#N` pattern tried at every position of `s`, the end included. */
  function HashMatches(s: string): (ms: seq<Option<string>>)
    ensures |ms| == |s| + 1
    ensures forall k :: 0 <= k <= |s| ==> ms[k] == HashMatchAt(s, k)
  {
    seq(|s| + 1, k requires 0 <= k <= |s| => HashMatchAt(s, k))
  }

  /** `re.search` for the URL pattern; its capture is a non-empty digit string. */
  function SearchUrl(s: string): (m: Option<string>)
    ensures m.Some? ==> |m.value| > 0 && AllDigits(m.value)
  {
    FirstMatchLeftmost(UrlMatches(s), 0);
    FirstMatch(UrlMatches(s), 0)
  }

  /** `re.search` for `#(\d+)`; its capture is a non-empty digit string. */
  function SearchHash(s: string): (m: Option<string>)
    ensures m.Some? ==> |m.value| > 0 && AllDigits(m.value)
  {
    FirstMatchLeftmost(HashMatches(s), 0);
    FirstMatch(HashMatches(s), 0)
  }

  /** `reference.isdigit()`: non-empty and all digits. */
  predicate IsDigitString(s: string) {
    |s| > 0 && AllDigits(s)
  }

  /**
   * `parse_issue_reference`: an issue URL anywhere, else `#N` anywhere, else a plain number;
   * anything else is refused with a message naming the reference.
   */
  function ParseIssueReference(reference: string): (r: Result<nat, string>)
    ensures r.Err? <==> SearchUrl(reference).None? && SearchHash(reference).None? && !IsDigitString(reference)
    ensures r.Err? ==> r.error == "Could not parse issue number from: " + reference
    ensures SearchUrl(reference).Some? ==> r == Ok(DigitsValue(SearchUrl(reference).value))
    ensures SearchUrl(reference).None? && SearchHash(reference).Some? ==>
      r == Ok(DigitsValue(SearchHash(reference).value))
    ensures SearchUrl(reference).None? && SearchHash(reference).None? && IsDigitString(reference) ==>
      r == Ok(DigitsValue(reference))
  {
    match SearchUrl(reference)
    case Some(digits) => Ok(DigitsValue(digits))
    case None =>
      match SearchHash(reference)
      case Some(digits) => Ok(DigitsValue(digits))
      case None =>
        if IsDigitString(reference) then Ok(DigitsValue(reference))
        else Err("Could not parse issue number from: " + reference)
  }

  /** Without a `g` there is no URL match, and without a `#` no hash match. */
  lemma NoUrlWithoutG(s: string)
    requires 'g' !in s
    ensures SearchUrl(s).None?
  {
    forall k | 0 <= k <= |s|
      ensures UrlMatchAt(s, k).None?
    {
      if k < |s| {
        NoUrlMatchAt(s, k);
      }
    }
    FirstMatchSkips(UrlMatches(s), 0, |s| + 1);
  }

  lemma NoHashWithoutHash(s: string)
    requires '#' !in s
    ensures SearchHash(s).None?
  {
    FirstMatchSkips(HashMatches(s), 0, |s| + 1);
  }

  /** A plain number, as `str(n)` renders it, parses back to `n`. */
  lemma ParsePlainNumber(n: nat)
    ensures ParseIssueReference(NatToDecimal(n)) == Ok(n)
  {
    var s := NatToDecimal(n);
    assert 'g' !in s && '#' !in s;
    NoUrlWithoutG(s);
    NoHashWithoutHash(s);
    DecimalRoundTrip(n);
  }

  /** `#N` parses back to `N`. */
  lemma ParseHashNumber(n: nat)
    ensures ParseIssueReference("#" + NatToDecimal(n)) == Ok(n)
  {
    ParseHashReference([], n, []);
    assert [] + "#" + NatToDecimal(n) + [] == "#" + NatToDecimal(n);
  }

  /** A slash-free run of `n` characters at `i` ended by a slash is the longest one there. */
  lemma NonSlashRunExact(s: string, i: nat, n: nat)
    requires i + n < |s| && s[i + n] == '/' && forall k :: i <= k < i + n ==> s[k] != '/'
    ensures NonSlashRun(s, i) == n
  {
    NonSlashRunChars(s, i);
  }

  /** The characters of a slice equal to `t` are those of `t`. */
  lemma SliceChars(s: string, a: nat, t: string)
    requires a + |t| <= |s| && s[a..a + |t|] == t
    ensures forall k :: a <= k < a + |t| ==> s[k] == t[k - a]
  {
    assert forall k :: a <= k < a + |t| ==> s[k] == s[a..a + |t|][k - a];
  }

  // The URL match, stage by stage, when each part of the pattern is found.

  lemma PrefixMatches(s: string, i: nat)
    requires i + |GithubPrefix| <= |s| && s[i..i + |GithubPrefix|] == GithubPrefix
    ensures UrlMatchAt(s, i) == UrlFrom(s, i + |GithubPrefix|, 1)
  {
  }

  lemma OwnerMatches(s: string, owner: nat, slash: nat)
    requires owner < slash < |s| && NonSlashRun(s, owner) == slash - owner
    ensures UrlFrom(s, owner, 1) == UrlFrom(s, slash + 1, 2)
  {
  }

  lemma RepoMatches(s: string, repo: nat, x: nat)
    requires repo < x && x + |IssuesInfix| <= |s| && NonSlashRun(s, repo) == x - repo
    requires s[x..x + |IssuesInfix|] == IssuesInfix
    ensures UrlFrom(s, repo, 2) == UrlFrom(s, x + |IssuesInfix|, 3)
  {
  }

  lemma DigitsMatches(s: string, digits: nat, e: nat)
    requires digits < e <= |s| && DigitRun(s, digits) == e - digits
    ensures UrlFrom(s, digits, 3) == Some(s[digits..e])
  {
  }

  /** No URL match starts at a character other than `g`. */
  lemma NoUrlMatchAt(s: string, i: nat)
    requires i < |s| && s[i] != 'g'
    ensures UrlMatchAt(s, i).None?
  {
    if i + |GithubPrefix| <= |s| {
      assert s[i..i + |GithubPrefix|][0] == s[i];
    }
  }

  /** The URL search finds the leftmost match, and finds none only where no position matches. */
  lemma SearchUrlLeftmost(s: string)
    ensures SearchUrl(s).Some? ==>
      exists j :: 0 <= j <= |s| && UrlMatchAt(s, j) == SearchUrl(s) && forall k :: 0 <= k < j ==> UrlMatchAt(s, k).None?
    ensures SearchUrl(s).None? ==> forall k :: 0 <= k <= |s| ==> UrlMatchAt(s, k).None?
  {
    FirstMatchLeftmost(UrlMatches(s), 0);
  }

  /** Likewise for the `#N` search. */
  lemma SearchHashLeftmost(s: string)
    ensures SearchHash(s).Some? ==>
      exists j :: 0 <= j <= |s| && HashMatchAt(s, j) == SearchHash(s) && forall k :: 0 <= k < j ==> HashMatchAt(s, k).None?
    ensures SearchHash(s).None? ==> forall k :: 0 <= k <= |s| ==> HashMatchAt(s, k).None?
  {
    FirstMatchLeftmost(HashMatches(s), 0);
  }

  lemma DigitsOfSlice(s: string, a: nat, n: nat)
    requires a + n <= |s| && AllDigits(s[a..a + n])
    ensures forall k :: a <= k < a + n ==> IsDigit(s[k])
  {
    assert forall k :: a <= k < a + n ==> s[k] == s[a..a + n][k - a];
  }

  /** A run of `n` digits at `i` not followed by a digit is the longest one there. */
  lemma DigitRunExact(s: string, i: nat, n: nat)
    requires i + n <= |s| && forall k :: i <= k < i + n ==> IsDigit(s[k])
    requires i + n == |s| || !IsDigit(s[i + n])
    ensures DigitRun(s, i) == n
  {
    DigitRunDigits(s, i);
  }

  /** A slice inside the left operand of a concatenation is a slice of that operand. */
  lemma SliceOfLeft(a: string, b: string, x: nat, y: nat)
    requires x <= y <= |a|
    ensures (a + b)[x..y] == a[x..y]
  {
  }

  /** The right operand of a concatenation is its slice past the left one. */
  lemma SliceOfRight(a: string, b: string)
    ensures (a + b)[|a|..] == b
  {
  }

  /** Where the parts of an issue URL written between `pre` and `rest` sit. */
  lemma UrlLayout(pre: string, owner: string, repo: string, d: string, rest: string)
    ensures var s := pre + GithubPrefix + owner + "/" + repo + IssuesInfix + d + rest;
      var o := |pre| + |GithubPrefix|;
      var r := o + |owner| + 1;
      var x := r + |repo|;
      var e := x + |IssuesInfix| + |d|;
      && s[|pre|..o] == GithubPrefix && s[o..o + |owner|] == owner && s[o + |owner|] == '/'
      && s[r..x] == repo && s[x..x + |IssuesInfix|] == IssuesInfix && s[x + |IssuesInfix|..e] == d && s[e..] == rest
  {
    var p1 := pre + GithubPrefix;
    var p2 := p1 + owner;
    var p3 := p2 + "/";
    var p4 := p3 + repo;
    var p5 := p4 + IssuesInfix;
    var p6 := p5 + d;
    var s := p6 + rest;
    SliceOfRight(pre, GithubPrefix);
    assert p1[|pre|..|p1|] == p1[|pre|..];
    SliceOfLeft(p1, owner, |pre|, |p1|);
    SliceOfLeft(p2, "/", |pre|, |p1|);
    SliceOfLeft(p3, repo, |pre|, |p1|);
    SliceOfLeft(p4, IssuesInfix, |pre|, |p1|);
    SliceOfLeft(p5, d, |pre|, |p1|);
    SliceOfLeft(p6, rest, |pre|, |p1|);
    SliceOfRight(p1, owner);
    assert p2[|p1|..|p2|] == p2[|p1|..];
    SliceOfLeft(p2, "/", |p1|, |p2|);
    SliceOfLeft(p3, repo, |p1|, |p2|);
    SliceOfLeft(p4, IssuesInfix, |p1|, |p2|);
    SliceOfLeft(p5, d, |p1|, |p2|);
    SliceOfLeft(p6, rest, |p1|, |p2|);
    SliceOfRight(p2, "/");
    assert p3[|p2|..|p3|] == p3[|p2|..];
    SliceOfLeft(p3, repo, |p2|, |p3|);
    SliceOfLeft(p4, IssuesInfix, |p2|, |p3|);
    SliceOfLeft(p5, d, |p2|, |p3|);
    SliceOfLeft(p6, rest, |p2|, |p3|);
    SliceOfRight(p3, repo);
    assert p4[|p3|..|p4|] == p4[|p3|..];
    SliceOfLeft(p4, IssuesInfix, |p3|, |p4|);
    SliceOfLeft(p5, d, |p3|, |p4|);
    SliceOfLeft(p6, rest, |p3|, |p4|);
    SliceOfRight(p4, IssuesInfix);
    assert p5[|p4|..|p5|] == p5[|p4|..];
    SliceOfLeft(p5, d, |p4|, |p5|);
    SliceOfLeft(p6, rest, |p4|, |p5|);
    SliceOfRight(p5, d);
    assert p6[|p5|..|p6|] == p6[|p5|..];
    SliceOfLeft(p6, rest, |p5|, |p6|);
    SliceOfRight(p6, rest);
    assert s[|p2|] == s[|p2|..|p3|][0];
  }

  /**
   * The URL pattern matches at `i` when the prefix is there, the longest slash-free run after it
   * (the owner) is non-empty and ends at `r - 1`, the longest one from `r` (the repository) is
   * non-empty and ends at `x` where the infix follows, and the longest digit run after the infix
   * is non-empty and ends at `e`; it captures that run.
   */
  lemma UrlMatchesAt(s: string, i: nat, r: nat, x: nat, e: nat)
    requires i + |GithubPrefix| + 1 < r < x && x + |IssuesInfix| < e <= |s|
    requires s[i..i + |GithubPrefix|] == GithubPrefix && s[x..x + |IssuesInfix|] == IssuesInfix
    requires NonSlashRun(s, i + |GithubPrefix|) == r - 1 - (i + |GithubPrefix|)
    requires NonSlashRun(s, r) == x - r
    requires DigitRun(s, x + |IssuesInfix|) == e - (x + |IssuesInfix|)
    ensures UrlMatchAt(s, i) == Some(s[x + |IssuesInfix|..e])
  {
    DigitsMatches(s, x + |IssuesInfix|, e);
    RepoMatches(s, r, x);
    OwnerMatches(s, i + |GithubPrefix|, r - 1);
    PrefixMatches(s, i);
  }

  /**
   * An issue URL between `pre` and a `rest` that does not continue its number is matched at the
   * end of `pre`, capturing the number.
   */
  lemma UrlAfterPrefix(pre: string, owner: string, repo: string, d: string, rest: string)
    requires |owner| > 0 && |repo| > 0 && '/' !in owner && '/' !in repo && |d| > 0 && AllDigits(d)
    requires rest == [] || !IsDigit(rest[0])
    ensures UrlMatchAt(pre + GithubPrefix + owner + "/" + repo + IssuesInfix + d + rest, |pre|) == Some(d)
  {
    var s := pre + GithubPrefix + owner + "/" + repo + IssuesInfix + d + rest;
    var o := |pre| + |GithubPrefix|;
    var r := o + |owner| + 1;
    var x := r + |repo|;
    var e := x + |IssuesInfix| + |d|;
    UrlLayout(pre, owner, repo, d, rest);
    assert e < |s| ==> s[e] == s[e..][0];
    UrlAtSlices(s, |pre|, o, r, x, e, owner, repo, d);
  }

  /** The URL pattern matches at `i` when the slices between the cut points are an issue URL's parts. */
  lemma UrlAtSlices(s: string, i: nat, o: nat, r: nat, x: nat, e: nat, owner: string, repo: string, d: string)
    requires |owner| > 0 && |repo| > 0 && '/' !in owner && '/' !in repo && |d| > 0 && AllDigits(d)
    requires o == i + |GithubPrefix| && r == o + |owner| + 1 && x == r + |repo| && e == x + |IssuesInfix| + |d| <= |s|
    requires s[i..o] == GithubPrefix && s[o..o + |owner|] == owner && s[o + |owner|] == '/'
    requires s[r..x] == repo && s[x..x + |IssuesInfix|] == IssuesInfix && s[x + |IssuesInfix|..e] == d
    requires e == |s| || !IsDigit(s[e])
    ensures UrlMatchAt(s, i) == Some(d)
  {
    NonSlashRunOfSlice(s, o, owner);
    assert s[x] == s[x..x + |IssuesInfix|][0];
    NonSlashRunOfSlice(s, r, repo);
    DigitRunOfSlice(s, x + |IssuesInfix|, d);
    UrlMatchesAt(s, i, r, x, e);
  }

  lemma NonSlashRunOfSlice(s: string, a: nat, t: string)
    requires a + |t| < |s| && s[a..a + |t|] == t && '/' !in t && s[a + |t|] == '/'
    ensures NonSlashRun(s, a) == |t|
  {
    SliceChars(s, a, t);
    NonSlashRunExact(s, a, |t|);
  }

  lemma DigitRunOfSlice(s: string, a: nat, t: string)
    requires a + |t| <= |s| && s[a..a + |t|] == t && AllDigits(t) && (a + |t| == |s| || !IsDigit(s[a + |t|]))
    ensures DigitRun(s, a) == |t|
  {
    SliceChars(s, a, t);
    DigitRunExact(s, a, |t|);
  }

  /** A string is the concatenation of its slices between ascending cut points. */
  lemma SliceParts(s: string, a1: nat, a2: nat, a3: nat, a4: nat, a5: nat, a6: nat, a7: nat)
    requires a1 <= a2 <= a3 <= a4 <= a5 <= a6 <= a7 <= |s|
    ensures s == s[..a1] + s[a1..a2] + s[a2..a3] + s[a3..a4] + s[a4..a5] + s[a5..a6] + s[a6..a7] + s[a7..]
  {
    assert s[..a2] == s[..a1] + s[a1..a2];
    assert s[..a3] == s[..a2] + s[a2..a3];
    assert s[..a4] == s[..a3] + s[a3..a4];
    assert s[..a5] == s[..a4] + s[a4..a5];
    assert s[..a6] == s[..a5] + s[a5..a6];
    assert s[..a7] == s[..a6] + s[a6..a7];
    assert s == s[..a7] + s[a7..];
  }

  /** A string whose slices between ascending cut points are the given pieces is their concatenation. */
  lemma JoinParts(s: string, a1: nat, a2: nat, a3: nat, a4: nat, a5: nat, a6: nat, a7: nat,
                  p0: string, p1: string, p2: string, p3: string, p4: string, p5: string, p6: string, p7: string)
    requires a1 <= a2 <= a3 <= a4 <= a5 <= a6 <= a7 <= |s|
    requires s[..a1] == p0 && s[a1..a2] == p1 && s[a2..a3] == p2 && s[a3..a4] == p3
    requires s[a4..a5] == p4 && s[a5..a6] == p5 && s[a6..a7] == p6 && s[a7..] == p7
    ensures s == p0 + p1 + p2 + p3 + p4 + p5 + p6 + p7
  {
    SliceParts(s, a1, a2, a3, a4, a5, a6, a7);
  }

  // What each stage of a URL match that succeeds has found.

  // The stages of a URL match `m`, from the last one back: each gives the cut points from its start on.

  lemma DigitsFound(s: string, digits: nat, m: Option<string>) returns (e: nat)
    requires digits <= |s| && UrlFrom(s, digits, 3) == m && m.Some?
    ensures digits < e <= |s| && m == Some(s[digits..e])
    ensures e == |s| || !IsDigit(s[e])
  {
    e := digits + DigitRun(s, digits);
  }

  lemma RepoFound(s: string, r: nat, m: Option<string>) returns (x: nat, e: nat)
    requires r <= |s| && UrlFrom(s, r, 2) == m && m.Some?
    ensures r < x && x + |IssuesInfix| <= e <= |s| && s[x..x + |IssuesInfix|] == IssuesInfix
    ensures forall k :: r <= k < x ==> s[k] != '/'
    ensures m == Some(s[x + |IssuesInfix|..e]) && (e == |s| || !IsDigit(s[e]))
  {
    x := r + NonSlashRun(s, r);
    NonSlashRunChars(s, r);
    e := DigitsFound(s, x + |IssuesInfix|, m);
  }

  lemma OwnerFound(s: string, o: nat, m: Option<string>) returns (r: nat, x: nat, e: nat)
    requires o <= |s| && UrlFrom(s, o, 1) == m && m.Some?
    ensures o + 1 < r < x && x + |IssuesInfix| <= e <= |s|
    ensures s[r - 1] == '/' && s[x..x + |IssuesInfix|] == IssuesInfix
    ensures forall k :: o <= k < r - 1 ==> s[k] != '/'
    ensures forall k :: r <= k < x ==> s[k] != '/'
    ensures m == Some(s[x + |IssuesInfix|..e]) && (e == |s| || !IsDigit(s[e]))
  {
    var slash := o + NonSlashRun(s, o);
    NonSlashRunChars(s, o);
    r := slash + 1;
    x, e := RepoFound(s, r, m);
  }

  /** The cut points of a URL match at `i`: the owner ends at `r - 1`, the repository at `x`, the digits at `e`. */
  lemma UrlMatchParts(s: string, i: nat) returns (o: nat, r: nat, x: nat, e: nat)
    requires i <= |s| && UrlMatchAt(s, i).Some?
    ensures o == i + |GithubPrefix| && o + 1 < r < x && x + |IssuesInfix| <= e <= |s|
    ensures s[i..o] == GithubPrefix && s[r - 1] == '/' && s[x..x + |IssuesInfix|] == IssuesInfix
    ensures forall k :: o <= k < r - 1 ==> s[k] != '/'
    ensures forall k :: r <= k < x ==> s[k] != '/'
    ensures UrlMatchAt(s, i) == Some(s[x + |IssuesInfix|..e])
    ensures e == |s| || !IsDigit(s[e])
  {
    o := i + |GithubPrefix|;
    r, x, e := OwnerFound(s, o, UrlMatchAt(s, i));
  }

  /**
   * The text `s` is `s[..i]`, the prefix, a non-empty slash-free owner, a slash, a non-empty
   * slash-free repository, the infix, the digits `d` and a `rest` that does not continue them.
   */
  predicate IssueUrlAt(s: string, i: nat, owner: string, repo: string, d: string, rest: string)
    requires i <= |s|
  {
    && s == s[..i] + GithubPrefix + owner + "/" + repo + IssuesInfix + d + rest
    && |owner| > 0 && |repo| > 0 && '/' !in owner && '/' !in repo
    && |d| > 0 && AllDigits(d) && (rest == [] || !IsDigit(rest[0]))
  }

  /** The slices between the cut points of a match form an issue URL. */
  lemma LayoutFromParts(s: string, i: nat, o: nat, r: nat, x: nat, e: nat, d: string)
    requires o == i + |GithubPrefix| && o + 1 < r < x && x + |IssuesInfix| <= e <= |s|
    requires s[i..o] == GithubPrefix && s[r - 1] == '/' && s[x..x + |IssuesInfix|] == IssuesInfix
    requires forall k :: o <= k < r - 1 ==> s[k] != '/'
    requires forall k :: r <= k < x ==> s[k] != '/'
    requires d == s[x + |IssuesInfix|..e] && |d| > 0 && AllDigits(d) && (e == |s| || !IsDigit(s[e]))
    ensures IssueUrlAt(s, i, s[o..r - 1], s[r..x], d, s[e..])
  {
    var owner, repo, rest := s[o..r - 1], s[r..x], s[e..];
    assert '/' !in owner by {
      assert forall k :: 0 <= k < |owner| ==> owner[k] == s[o + k];
    }
    assert '/' !in repo by {
      assert forall k :: 0 <= k < |repo| ==> repo[k] == s[r + k];
    }
    assert rest == [] || rest[0] == s[e];
    assert s[r - 1..r] == "/";
    JoinParts(s, i, o, r - 1, r, x, x + |IssuesInfix|, e, s[..i], GithubPrefix, owner, "/", repo, IssuesInfix, d, rest);
  }

  /** Conversely, a URL match at `i` means an issue URL is written from `i` on, with the captured digits. */
  lemma UrlMatchLayout(s: string, i: nat, d: string) returns (owner: string, repo: string, rest: string)
    requires i <= |s| && UrlMatchAt(s, i) == Some(d)
    ensures IssueUrlAt(s, i, owner, repo, d, rest)
  {
    var o, r, x, e := UrlMatchParts(s, i);
    LayoutFromParts(s, i, o, r, x, e, d);
    owner, repo, rest := s[o..r - 1], s[r..x], s[e..];
  }

  /** So the URL pattern matches at `i` exactly where an issue URL is written, capturing its number. */
  lemma UrlMatchAtIff(s: string, i: nat, d: string)
    requires i <= |s|
    ensures UrlMatchAt(s, i) == Some(d) <==> exists owner, repo, rest :: IssueUrlAt(s, i, owner, repo, d, rest)
  {
    if UrlMatchAt(s, i) == Some(d) {
      var owner, repo, rest := UrlMatchLayout(s, i, d);
    }
    if owner, repo, rest :| IssueUrlAt(s, i, owner, repo, d, rest) {
      UrlAfterPrefix(s[..i], owner, repo, d, rest);
    }
  }

  /** No URL match starts inside a stretch without a `g`. */
  lemma NoUrlMatchBefore(s: string, p: nat)
    requires p <= |s| && forall k :: 0 <= k < p ==> s[k] != 'g'
    ensures forall k :: 0 <= k < p ==> UrlMatchAt(s, k).None?
  {
    forall k | 0 <= k < p {
      NoUrlMatchAt(s, k);
    }
  }

  /** The URL search reaches a match at `p` when no match starts before it. */
  lemma SearchUrlFinds(s: string, p: nat)
    requires p <= |s| && UrlMatchAt(s, p).Some?
    requires forall k :: 0 <= k < p ==> UrlMatchAt(s, k).None?
    ensures SearchUrl(s) == UrlMatchAt(s, p)
  {
    FirstMatchSkips(UrlMatches(s), 0, p);
  }

  /**
   * `github.com/<owner>/<repo>/issues/N` after a scheme or any other text without a `g`, and
   * followed by anything but a digit, parses back to `N`.
   */
  lemma ParseIssueUrl(pre: string, owner: string, repo: string, n: nat, rest: string)
    requires 'g' !in pre
    requires |owner| > 0 && |repo| > 0 && '/' !in owner && '/' !in repo
    requires rest == [] || !IsDigit(rest[0])
    ensures ParseIssueReference(pre + GithubPrefix + owner + "/" + repo + IssuesInfix + NatToDecimal(n) + rest) == Ok(n)
  {
    var d := NatToDecimal(n);
    var s := pre + GithubPrefix + owner + "/" + repo + IssuesInfix + d + rest;
    assert forall k :: 0 <= k < |pre| ==> s[k] == pre[k];
    NoUrlMatchBefore(s, |pre|);
    UrlAfterPrefix(pre, owner, repo, d, rest);
    SearchUrlFinds(s, |pre|);
    DecimalRoundTrip(n);
  }

  /** In particular, `https://github.com/<owner>/<repo>/issues/N` parses back to `N`. */
  lemma ParseHttpsIssueUrl(owner: string, repo: string, n: nat)
    requires |owner| > 0 && |repo| > 0 && '/' !in owner && '/' !in repo
    ensures ParseIssueReference("https://" + GithubPrefix + owner + "/" + repo + IssuesInfix + NatToDecimal(n)) == Ok(n)
  {
    ParseIssueUrl("https://", owner, repo, n, []);
    assert "https://" + GithubPrefix + owner + "/" + repo + IssuesInfix + NatToDecimal(n) + []
      == "https://" + GithubPrefix + owner + "/" + repo + IssuesInfix + NatToDecimal(n);
  }

  /** No `#N` match starts before a `#` at `p` when no earlier `#` is followed by a digit. */
  lemma NoHashMatchBefore(s: string, p: nat)
    requires p < |s| && s[p] == '#'
    requires forall k :: 0 <= k < p - 1 && s[k] == '#' ==> !IsDigit(s[k + 1])
    ensures forall k :: 0 <= k < p ==> HashMatchAt(s, k).None?
  {
  }

  /** The search reaches a match at `p` when no match starts before it. */
  lemma SearchHashFinds(s: string, p: nat)
    requires p <= |s| && HashMatchAt(s, p).Some?
    requires forall k :: 0 <= k < p ==> HashMatchAt(s, k).None?
    ensures SearchHash(s) == HashMatchAt(s, p)
  {
    FirstMatchSkips(HashMatches(s), 0, p);
  }

  /** `#` and a digit run `d` at `p`, before a `rest` that does not continue the run, is a `#N` match. */
  lemma HashMatchesAt(s: string, p: nat, d: string, rest: string)
    requires |d| > 0 && AllDigits(d)
    requires rest == [] || !IsDigit(rest[0])
    requires p <= |s| && s[p..] == "#" + d + rest
    ensures HashMatchAt(s, p) == Some(d)
  {
    var t := s[p..];
    assert s[p] == t[0] == '#';
    assert forall k :: p + 1 <= k < p + 1 + |d| ==> s[k] == t[k - p] == d[k - p - 1];
    assert rest != [] ==> s[p + 1 + |d|] == t[1 + |d|] == rest[0];
    DigitRunExact(s, p + 1, |d|);
    assert s[p + 1..p + 1 + |d|] == t[1..1 + |d|] == d;
  }

  /**
   * `#` and a digit run `d` after a `prefix` in which no `#` is followed by a digit, and before a
   * `rest` that does not continue the run, is the `#N` match the search finds.
   */
  lemma HashAfterPrefix(prefix: string, d: string, rest: string)
    requires forall k :: 0 <= k < |prefix| - 1 && prefix[k] == '#' ==> !IsDigit(prefix[k + 1])
    requires |d| > 0 && AllDigits(d)
    requires rest == [] || !IsDigit(rest[0])
    ensures SearchHash(prefix + "#" + d + rest) == Some(d)
  {
    var s := prefix + "#" + d + rest;
    var p := |prefix|;
    assert s[..p] == prefix;
    assert s[p..] == "#" + d + rest;
    assert forall k :: 0 <= k < p - 1 && s[k] == '#' ==> !IsDigit(s[k + 1]) by {
      assert forall k :: 0 <= k < p ==> s[k] == s[..p][k];
    }
    NoHashMatchBefore(s, p);
    HashMatchesAt(s, p, d, rest);
    SearchHashFinds(s, p);
  }

  /** `#N` parses back to `N` wherever it sits, in a reference without a `g` (so without a URL). */
  lemma ParseHashReference(prefix: string, n: nat, rest: string)
    requires forall k :: 0 <= k < |prefix| - 1 && prefix[k] == '#' ==> !IsDigit(prefix[k + 1])
    requires rest == [] || !IsDigit(rest[0])
    requires 'g' !in prefix && 'g' !in rest
    ensures ParseIssueReference(prefix + "#" + NatToDecimal(n) + rest) == Ok(n)
  {
    var d := NatToDecimal(n);
    var s := prefix + "#" + d + rest;
    assert forall k :: 0 <= k < |s| ==> s[k] != 'g' by {
      assert forall k :: 0 <= k < |prefix| ==> s[k] == prefix[k];
      assert forall k :: |prefix| + 1 <= k < |prefix| + 1 + |d| ==> s[k] == d[k - |prefix| - 1];
      assert forall k :: |prefix| + 1 + |d| <= k < |s| ==> s[k] == rest[k - |prefix| - 1 - |d|];
    }
    NoUrlWithoutG(s);
    HashAfterPrefix(prefix, d, rest);
    DecimalRoundTrip(n);
  }

  /** A reference with no URL, no `#N` and a non-digit character is refused. */
  lemma RefusesOtherReferences()
    ensures ParseIssueReference("abc").Err?
    ensures ParseIssueReference("").Err?
  {
    NoUrlWithoutG("abc");
    NoHashWithoutHash("abc");
    assert !IsDigit("abc"[0]);
  }
}
