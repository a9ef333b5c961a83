/** Tab completion of shell commands: get_command_to_complete and completion in
    drivers/console/console_handler_shell.c. */
module ShellCompletion {
  import opened CTypes
  import opened CStrings
  import opened ShellArgv
  import LineEditor

  const MODULE_NAME_MAX_LEN := 20
  const COMMAND_MAX_LEN := 50
  const MAX_LINE_LEN := 256

  /** What a typed line asks to complete: a command prefix in a module, or nothing. */
  datatype Goal = Nothing | Goal(dest: nat, prefix: seq<U8>)

  /** A registered module: its name and its command names. */
  datatype Module = Module(name: seq<U8>, commands: seq<seq<U8>>)

  /** The command table and the default module, or -1. */
  datatype Shell = Shell(modules: seq<Module>, selected: int) {
    predicate Valid() {
      && -1 <= selected < |modules|
      && forall m, c | 0 <= m < |modules| && 0 <= c < |modules[m].commands| ::
           |modules[m].commands[c]| <= COMMAND_MAX_LEN && 0 !in modules[m].commands[c]
    }
  }

  // ---------------------------------------------------------------- what is completed

  /** The first position at or after i that is not a space. */
  function NonSpace(s: seq<U8>, i: nat): (r: nat)
    requires i <= |s|
    ensures i <= r <= |s| && (r < |s| ==> s[r] != SPACE) && forall j :: i <= j < r ==> s[j] == SPACE
    decreases |s| - i
  {
    if i < |s| && s[i] == SPACE then NonSpace(s, i + 1) else i
  }

  /** The modules from lo up to hi have other names. */
  ghost predicate NotNamed(modules: seq<Module>, name: seq<U8>, lo: nat, hi: nat) {
    forall j :: lo <= j < hi && j < |modules| ==> modules[j].name != name
  }

  /** m is the first module of that name, or -1 if there is none. */
  ghost predicate FirstNamed(modules: seq<Module>, name: seq<U8>, m: int) {
    if m == -1 then NotNamed(modules, name, 0, |modules|)
    else 0 <= m < |modules| && modules[m].name == name && NotNamed(modules, name, 0, m)
  }

  function FindModule(modules: seq<Module>, name: seq<U8>, i: nat): (m: int)
    requires i <= |modules|
    ensures -1 <= m < |modules|
    ensures m == -1 ==> NotNamed(modules, name, i, |modules|)
    ensures m >= 0 ==> i <= m && modules[m].name == name && NotNamed(modules, name, i, m)
    decreases |modules| - i
  {
    if i == |modules| then -1 else if modules[i].name == name then i else FindModule(modules, name, i + 1)
  }

  /** The module and the command prefix in a line: one word if a module is selected, else
      exactly a module name, a space and a word. */
  function Target(sh: Shell, s: seq<U8>): (t: Goal)
    requires sh.Valid()
    ensures t.Goal? ==> t.dest < |sh.modules|
  {
    var start := NonSpace(s, 0);
    var e := EndOf(s, start);
    if start == |s| then Nothing
    else if sh.selected != -1 then
      if e == |s| then Goal(sh.selected, s[start..]) else Nothing
    else if e == |s| || e - start + 1 >= MODULE_NAME_MAX_LEN then Nothing
    else
      var m := FindModule(sh.modules, s[start..e], 0);
      if m == -1 || EndOf(s, e + 1) < |s| then Nothing else Goal(m, s[e + 1..])
  }

  // ---------------------------------------------------------------- common prefixes

  /** The names that start with the prefix, in order. */
  function Matching(names: seq<seq<U8>>, prefix: seq<U8>): seq<seq<U8>> {
    if names == [] then []
    else
      var rest, last := Matching(names[..|names| - 1], prefix), names[|names| - 1];
      if prefix <= last then rest + [last] else rest
  }

  lemma {:induction false} MatchingExact(names: seq<seq<U8>>, prefix: seq<U8>)
    ensures forall n :: n in Matching(names, prefix) <==> n in names && prefix <= n
  {
    if names != [] {
      var front, last := names[..|names| - 1], names[|names| - 1];
      MatchingExact(front, prefix);
      assert names == front + [last];
    }
  }

  /** The length of the longest common prefix of two strings. */
  function Common2(a: seq<U8>, b: seq<U8>): (n: nat)
    ensures n <= |a| && n <= |b| && a[..n] == b[..n]
    ensures n < |a| && n < |b| ==> a[n] != b[n]
  {
    if a != [] && b != [] && a[0] == b[0] then
      var n := Common2(a[1..], b[1..]);
      assert a[..n + 1] == [a[0]] + a[1..][..n] && b[..n + 1] == [b[0]] + b[1..][..n];
      n + 1
    else 0
  }

  lemma {:induction false} Common2Longest(a: seq<U8>, b: seq<U8>, p: seq<U8>)
    requires p <= a && p <= b
    ensures |p| <= Common2(a, b)
  {
    if p != [] {
      assert p[0] == a[0] == b[0];
      Common2Longest(a[1..], b[1..], p[1..]);
    }
  }

  /** The length of the longest common prefix of some strings. */
  function Common(names: seq<seq<U8>>): (n: nat)
    requires names != []
    ensures n <= |names[0]|
  {
    if |names| == 1 then |names[0]|
    else
      var n, k := Common(names[..|names| - 1]), Common2(names[0], names[|names| - 1]);
      if n < k then n else k
  }

  /** Common measures a common prefix, and no common prefix is longer. */
  lemma {:induction false} CommonIsLongest(names: seq<seq<U8>>, p: seq<U8>)
    requires names != []
    ensures forall n :: n in names ==> names[0][..Common(names)] <= n
    ensures (forall n :: n in names ==> p <= n) ==> p <= names[0][..Common(names)]
  {
    var top := names[0][..Common(names)];
    assert names[0] in names;
    if |names| > 1 {
      var front, last := names[..|names| - 1], names[|names| - 1];
      CommonIsLongest(front, p);
      var k := Common2(names[0], last);
      assert names[0][..k] == last[..k];
      forall n | n in names ensures top <= n {
        if n in front {
          assert front[0][..Common(front)] <= n;
        }
      }
      if forall n :: n in names ==> p <= n {
        assert last in names && names[0] in names && forall n :: n in front ==> n in names;
        Common2Longest(names[0], last, p);
      }
    }
  }

  lemma MatchingCommon(names: seq<seq<U8>>, prefix: seq<U8>)
    requires Matching(names, prefix) != []
    ensures var ms := Matching(names, prefix);
            prefix <= ms[0] && |prefix| <= Common(ms) && ms[0] in names
  {
    var ms := Matching(names, prefix);
    MatchingExact(names, prefix);
    CommonIsLongest(ms, prefix);
    assert ms[0] in ms;
  }

  /** What completion appends for a command prefix: nothing without a match, the rest of the
      name and a space for one match, else the rest of the longest common prefix. */
  function Extension(names: seq<seq<U8>>, prefix: seq<U8>): seq<U8> {
    var ms := Matching(names, prefix);
    if ms == [] then []
    else
      MatchingCommon(names, prefix);
      if |ms| == 1 then ms[0][|prefix|..] + [SPACE] else ms[0][|prefix|..Common(ms)]
  }

  /** What completion appends to a typed line. */
  function Appended(sh: Shell, typed: seq<U8>): seq<U8>
    requires sh.Valid()
  {
    if |typed| >= MODULE_NAME_MAX_LEN + COMMAND_MAX_LEN - 1 then []
    else
      var t := Target(sh, CString(typed));
      if t == Nothing then [] else Extension(sh.modules[t.dest].commands, t.prefix)
  }

  lemma AppendedTo(sh: Shell, typed: seq<U8>)
    requires sh.Valid() && 0 !in typed && |typed| < MODULE_NAME_MAX_LEN + COMMAND_MAX_LEN - 1
    ensures var t := Target(sh, typed);
            Appended(sh, typed) == if t == Nothing then [] else Extension(sh.modules[t.dest].commands, t.prefix)
  {
    WholeString(typed);
  }

  lemma ExtensionBounds(names: seq<seq<U8>>, prefix: seq<U8>)
    requires forall c :: 0 <= c < |names| ==> |names[c]| <= COMMAND_MAX_LEN && 0 !in names[c]
    ensures |Extension(names, prefix)| <= COMMAND_MAX_LEN + 1 && 0 !in Extension(names, prefix)
  {
    if Matching(names, prefix) != [] { MatchingCommon(names, prefix); }
  }

  /** The shell's completion is one the line editor may use: it fits the line and appends
      no NUL, for every typed text. */
  lemma CompletionFits(sh: Shell, del: U8)
    requires sh.Valid()
    ensures LineEditor.Config(MAX_LINE_LEN, del, t => Appended(sh, t)).CompletionFits()
  {
    forall t: seq<U8> | |t| < MAX_LINE_LEN
      ensures |t| + |Appended(sh, t)| < MAX_LINE_LEN && 0 !in Appended(sh, t)
    {
      var target := Target(sh, CString(t));
      if target.Goal? { ExtensionBounds(sh.modules[target.dest].commands, target.prefix); }
    }
  }

  /** What completion means: with one match the prefix becomes that name and a space; with
      several it becomes the longest string that all of them start with; with none it stays. */
  lemma ExtensionMeaning(names: seq<seq<U8>>, prefix: seq<U8>, p: seq<U8>)
    ensures (forall n :: n in names ==> !(prefix <= n)) ==> Extension(names, prefix) == []
    ensures |Matching(names, prefix)| == 1 ==> prefix + Extension(names, prefix) == Matching(names, prefix)[0] + [SPACE]
    ensures |Matching(names, prefix)| > 1 ==>
      && (forall n :: n in names && prefix <= n ==> prefix + Extension(names, prefix) <= n)
      && ((forall n :: n in names && prefix <= n ==> p <= n) ==> p <= prefix + Extension(names, prefix))
  {
    var ms := Matching(names, prefix);
    MatchingExact(names, prefix);
    if ms != [] {
      MatchingCommon(names, prefix);
      CommonIsLongest(ms, p);
      assert prefix + ms[0][|prefix|..] == ms[0];
      assert prefix + ms[0][|prefix|..Common(ms)] == ms[0][..Common(ms)];
      assert ms[0] in ms;
    }
  }

  lemma {:induction false} EndOfUnique(s: seq<U8>, i: nat, e: nat)
    requires i <= e <= |s| && (e < |s| ==> s[e] == SPACE) && forall j :: i <= j < e ==> s[j] != SPACE
    ensures EndOf(s, i) == e
  {
  }

  /** A line of spaces, then words[0] at start, then one space, then words[1] and a space. */
  lemma TwoWords(s: seq<U8>, start: nat, e: nat, f: nat)
    requires start < e && e + 1 < f && f + 1 == |s|
    requires (forall j :: 0 <= j < start ==> s[j] == SPACE) && (forall j :: start <= j < e ==> s[j] != SPACE)
    requires s[e] == SPACE && (forall j :: e < j < f ==> s[j] != SPACE) && s[f] == SPACE
    ensures Starts(s, |s|) == [start, e + 1]
    ensures Argument(s, start) == s[start..e] && Argument(s, e + 1) == s[e + 1..f]
  {
    EndOfUnique(s, start, e);
    EndOfUnique(s, e + 1, f);
    FirstStart(s, start);
    NextStart(s, start, e, e + 1);
    assert Starts(s, e + 2) == [start] + [e + 1];
    assert forall i :: e + 2 <= i < |s| ==> !IsStart(s, i);
    StartsSkip(s, e + 2, |s|);
  }

  lemma FirstStart(s: seq<U8>, start: nat)
    requires start < |s| && s[start] != SPACE && forall j :: 0 <= j < start ==> s[j] == SPACE
    ensures Starts(s, start + 1) == [start]
  {
    StartsSkip(s, 0, start);
    assert IsStart(s, start);
  }

  lemma OneWord(s: seq<U8>, start: nat, f: nat)
    requires start < f && f + 1 == |s|
    requires (forall j :: 0 <= j < start ==> s[j] == SPACE) && (forall j :: start <= j < f ==> s[j] != SPACE)
    requires s[f] == SPACE
    ensures Starts(s, |s|) == [start] && Argument(s, start) == s[start..f]
  {
    EndOfUnique(s, start, f);
    StartsSkip(s, 0, start);
    assert IsStart(s, start);
    StartsSkip(s, start + 1, |s|);
  }

  lemma CompletedTwo(typed: seq<U8>, start: nat, k: nat, c: seq<U8>)
    requires start < k - 1 < |typed| && typed[k - 1] == SPACE && c != [] && SPACE !in c
    requires forall j :: 0 <= j < start ==> typed[j] == SPACE
    requires forall j :: start <= j < k - 1 ==> typed[j] != SPACE
    ensures var s := typed[..k] + c + [SPACE];
            && Starts(s, |s|) == [start, k]
            && Argument(s, start) == typed[start..k - 1] && Argument(s, k) == c
  {
    var s := typed[..k] + c + [SPACE];
    assert forall j :: 0 <= j < k ==> s[j] == typed[j];
    assert forall j :: k <= j < k + |c| ==> s[j] == c[j - k];
    TwoWords(s, start, k - 1, k + |c|);
    assert s[start..k - 1] == typed[start..k - 1] && s[k..k + |c|] == c;
  }

  lemma CompletedOne(typed: seq<U8>, k: nat, c: seq<U8>)
    requires k <= |typed| && c != [] && SPACE !in c
    requires forall j :: 0 <= j < k ==> typed[j] == SPACE
    ensures var s := typed[..k] + c + [SPACE]; Starts(s, |s|) == [k] && Argument(s, k) == c
  {
    var s := typed[..k] + c + [SPACE];
    assert forall j :: 0 <= j < k ==> s[j] == typed[j];
    assert forall j :: k <= j < k + |c| ==> s[j] == c[j - k];
    OneWord(s, k, k + |c|);
    assert s[k..k + |c|] == c;
  }

  /** The shape of a line with something to complete: spaces, then with no module selected
      the module's name and one space, then the command prefix from k on. */
  lemma TargetWords(sh: Shell, typed: seq<U8>) returns (start: nat, k: nat)
    requires sh.Valid() && Target(sh, typed).Goal?
    ensures start <= k <= |typed| && typed[k..] == Target(sh, typed).prefix
    ensures forall j :: 0 <= j < start ==> typed[j] == SPACE
    ensures sh.selected != -1 ==> start == k
    ensures sh.selected == -1 ==>
      && start < k - 1 && typed[k - 1] == SPACE && (forall j :: start <= j < k - 1 ==> typed[j] != SPACE)
      && typed[start..k - 1] == sh.modules[Target(sh, typed).dest].name
  {
    start := NonSpace(typed, 0);
    k := start;
    if sh.selected == -1 {
      var e := EndOf(typed, start);
      k := e + 1;
    }
  }

  lemma CompletedLine(sh: Shell, typed: seq<U8>, c: seq<U8>, k: nat)
    requires sh.Valid() && 0 !in typed && |typed| < MODULE_NAME_MAX_LEN + COMMAND_MAX_LEN - 1
    requires var t := Target(sh, typed);
             t.Goal? && Matching(sh.modules[t.dest].commands, t.prefix) == [c] && k <= |typed| && typed[k..] == t.prefix
    ensures typed + Appended(sh, typed) == typed[..k] + c + [SPACE]
  {
    var t := Target(sh, typed);
    AppendedTo(sh, typed);
    ExtensionMeaning(sh.modules[t.dest].commands, t.prefix, []);
    JoinTyped(typed, k, Extension(sh.modules[t.dest].commands, t.prefix), c);
  }

  lemma JoinTyped(typed: seq<U8>, k: nat, more: seq<U8>, c: seq<U8>)
    requires k <= |typed| && typed[k..] + more == c + [SPACE]
    ensures typed + more == typed[..k] + c + [SPACE]
  {
    assert typed == typed[..k] + typed[k..];
    assert typed[..k] + typed[k..] + more == typed[..k] + (typed[k..] + more);
  }

  /** Completing a line to a unique command yields a line whose arguments are that command,
      preceded by its module's name when no module is selected: exactly what the shell
      dispatches on. */
  lemma CompletedLineParses(sh: Shell, typed: seq<U8>, c: seq<U8>)
    requires sh.Valid() && 0 !in typed && |typed| < MODULE_NAME_MAX_LEN + COMMAND_MAX_LEN - 1
    requires var t := Target(sh, typed); t.Goal? && Matching(sh.modules[t.dest].commands, t.prefix) == [c]
    requires c != [] && SPACE !in c
    ensures var s := typed + Appended(sh, typed); var starts := Starts(s, |s|);
      if sh.selected == -1 then
        && |starts| == 2 && starts[0] <= |s| && starts[1] <= |s|
        && Argument(s, starts[0]) == sh.modules[Target(sh, typed).dest].name && Argument(s, starts[1]) == c
      else
        |starts| == 1 && starts[0] <= |s| && Argument(s, starts[0]) == c
  {
    var start, k := TargetWords(sh, typed);
    CompletedLine(sh, typed, c, k);
    if sh.selected == -1 {
      CompletedTwo(typed, start, k, c);
    } else {
      CompletedOne(typed, start, c);
    }
  }

  // ---------------------------------------------------------------- what a line asks for

  function Spaces(k: nat): seq<U8> { seq(k, _ => 32) }

  /** The line is k spaces, a word, a space and a word that may be empty. */
  predicate Two(s: seq<U8>, k: nat, name: seq<U8>, p: seq<U8>) {
    s == Spaces(k) + name + [32] + p && name != [] && 32 !in name && 32 !in p
  }

  /** The line is k spaces and a word. */
  predicate One(s: seq<U8>, k: nat, p: seq<U8>) { s == Spaces(k) + p && p != [] && 32 !in p }

  /** The line asks for the commands of module m that start with p: with a default module
      it is that one's, and the line is one word; else the line is the name, of at most 18
      bytes, of m and no module before it, and a word. */
  ghost predicate Asks(sh: Shell, s: seq<U8>, m: nat, p: seq<U8>) {
    if sh.selected != -1 then m == sh.selected && exists k :: One(s, k, p)
    else exists k, name :: Two(s, k, name, p) && |name| <= 18 && FirstNamed(sh.modules, name, m)
  }

  lemma {:induction false} NonSpaceIs(s: seq<U8>, k: nat, r: nat)
    requires k <= r <= |s| && (r < |s| ==> s[r] != SPACE) && forall j :: k <= j < r ==> s[j] == SPACE
    ensures NonSpace(s, k) == r
    decreases r - k
  {
    if k < r { NonSpaceIs(s, k + 1, r); }
  }

  lemma OneTarget(sh: Shell, s: seq<U8>, k: nat, p: seq<U8>)
    requires sh.Valid() && sh.selected != -1 && One(s, k, p)
    ensures Target(sh, s) == Goal(sh.selected, p)
  {
    assert forall j :: k <= j < |s| ==> s[j] == p[j - k];
    NonSpaceIs(s, 0, k);
    EndOfUnique(s, k, |s|);
    assert s[k..] == p;
  }

  lemma TwoTarget(sh: Shell, s: seq<U8>, k: nat, name: seq<U8>, p: seq<U8>, m: nat)
    requires sh.Valid() && sh.selected == -1 && Two(s, k, name, p) && |name| <= 18 && FirstNamed(sh.modules, name, m)
    ensures Target(sh, s) == Goal(m, p)
  {
    TwoEnds(s, k, name, p);
  }

  /** Where the words of such a line begin and end. */
  lemma TwoEnds(s: seq<U8>, k: nat, name: seq<U8>, p: seq<U8>)
    requires Two(s, k, name, p)
    ensures var e := k + |name|;
      && e < |s| && NonSpace(s, 0) == k && EndOf(s, k) == e && EndOf(s, e + 1) == |s|
      && s[k..e] == name && s[e + 1..] == p
  {
    var e := k + |name|;
    assert forall j :: k <= j < e ==> s[j] == name[j - k];
    assert forall j :: e < j < |s| ==> s[j] == p[j - e - 1];
    NonSpaceIs(s, 0, k);
    EndOfUnique(s, k, e);
    EndOfUnique(s, e + 1, |s|);
  }

  lemma TargetOne(sh: Shell, s: seq<U8>) returns (k: nat)
    requires sh.Valid() && sh.selected != -1 && Target(sh, s).Goal?
    ensures Target(sh, s).dest == sh.selected && One(s, k, Target(sh, s).prefix)
  {
    k := NonSpace(s, 0);
    assert s[..k] == Spaces(k);
    assert s == s[..k] + s[k..];
  }

  lemma TargetTwo(sh: Shell, s: seq<U8>) returns (k: nat, name: seq<U8>)
    requires sh.Valid() && sh.selected == -1 && Target(sh, s).Goal?
    ensures Two(s, k, name, Target(sh, s).prefix) && |name| <= 18
    ensures FirstNamed(sh.modules, name, Target(sh, s).dest)
  {
    k := NonSpace(s, 0);
    var e := EndOf(s, k);
    name := s[k..e];
    assert s[..k] == Spaces(k);
    assert s == s[..k] + s[k..e] + [s[e]] + s[e + 1..];
  }

  /** For every shell and every line: what is to be completed is exactly what it asks for. */
  lemma TargetExactly(sh: Shell, s: seq<U8>, m: nat, p: seq<U8>)
    requires sh.Valid()
    ensures Target(sh, s) == Goal(m, p) <==> Asks(sh, s, m, p)
  {
    if Target(sh, s) == Goal(m, p) {
      if sh.selected != -1 {
        var k := TargetOne(sh, s);
      } else {
        var k, name := TargetTwo(sh, s);
      }
    }
    if Asks(sh, s, m, p) {
      if sh.selected != -1 {
        var k :| One(s, k, p);
        OneTarget(sh, s, k, p);
      } else {
        var k, name :| Two(s, k, name, p) && |name| <= 18 && FirstNamed(sh.modules, name, m);
        TwoTarget(sh, s, k, name, p, m);
      }
    }
  }

  /** The one command that starts with p. */
  ghost predicate Only(names: seq<seq<U8>>, p: seq<U8>, c: nat) {
    c < |names| && p <= names[c] && forall i :: 0 <= i < |names| && i != c ==> !(p <= names[i])
  }

  lemma {:induction false} NoneMatching(names: seq<seq<U8>>, p: seq<U8>)
    requires forall i :: 0 <= i < |names| ==> !(p <= names[i])
    ensures Matching(names, p) == []
  {
    if names != [] { NoneMatching(names[..|names| - 1], p); }
  }

  lemma {:induction false} OnlyMatching(names: seq<seq<U8>>, p: seq<U8>, c: nat)
    requires Only(names, p, c)
    ensures Matching(names, p) == [names[c]]
  {
    var front := names[..|names| - 1];
    if c < |front| {
      OnlyMatching(front, p, c);
    } else {
      NoneMatching(front, p);
    }
  }

  lemma {:induction false} TwoMatching(names: seq<seq<U8>>, p: seq<U8>, i: nat, j: nat)
    requires i < j < |names| && p <= names[i] && p <= names[j]
    ensures |Matching(names, p)| > 1
  {
    var front := names[..|names| - 1];
    if j < |front| {
      TwoMatching(front, p, i, j);
    } else {
      MatchingExact(front, p);
      assert front[i] in front;
    }
  }

  /** more is what a line that asks for the commands with prefix p gets: nothing if there is
      none, the rest of its name and a space if there is one, and if there are several what
      makes the prefix the longest string that all of them start with. */
  ghost predicate Completes(names: seq<seq<U8>>, p: seq<U8>, more: seq<U8>) {
    && ((forall i :: 0 <= i < |names| ==> !(p <= names[i])) ==> more == [])
    && (forall c: nat :: Only(names, p, c) ==> p + more == names[c] + [32])
    && (forall i: nat, j: nat :: i < j < |names| && p <= names[i] && p <= names[j] ==>
          LongestCommon(names, p, p + more))
  }

  ghost predicate AllStart(names: seq<seq<U8>>, p: seq<U8>, q: seq<U8>) {
    forall n :: n in names && p <= n ==> q <= n
  }

  ghost predicate LongestCommon(names: seq<seq<U8>>, p: seq<U8>, common: seq<U8>) {
    AllStart(names, p, common) && forall q :: AllStart(names, p, q) ==> q <= common
  }

  lemma ExtensionCompletes(names: seq<seq<U8>>, p: seq<U8>)
    ensures Completes(names, p, Extension(names, p))
  {
    if forall i :: 0 <= i < |names| ==> !(p <= names[i]) { NoneMatching(names, p); }
    forall c: nat | Only(names, p, c) ensures p + Extension(names, p) == names[c] + [32] {
      OnlyMatching(names, p, c);
      ExtensionMeaning(names, p, []);
    }
    if |Matching(names, p)| > 1 {
      ExtensionMeaning(names, p, []);
      forall q | AllStart(names, p, q) ensures q <= p + Extension(names, p) {
        ExtensionMeaning(names, p, q);
      }
    }
    forall i: nat, j: nat | i < j < |names| && p <= names[i] && p <= names[j]
      ensures LongestCommon(names, p, p + Extension(names, p))
    {
      TwoMatching(names, p, i, j);
    }
  }

  /** more is what a line gets: if it is short enough, what completes what it asks for; and
      nothing if it asks for nothing. */
  ghost predicate Answers(sh: Shell, typed: seq<U8>, more: seq<U8>) {
    && (|typed| >= 69 || (forall m: nat, p :: !Asks(sh, typed, m, p)) ==> more == [])
    && (forall m: nat, p :: |typed| < 69 && Asks(sh, typed, m, p) ==>
          m < |sh.modules| && Completes(sh.modules[m].commands, p, more))
  }

  /** For every shell and every line. */
  lemma AppendedMeaning(sh: Shell, typed: seq<U8>)
    requires sh.Valid() && 0 !in typed
    ensures Answers(sh, typed, Appended(sh, typed))
  {
    if |typed| >= 69 {
      return;
    }
    var t := Target(sh, typed);
    AppendedTo(sh, typed);
    if t.Goal? {
      TargetExactly(sh, typed, t.dest, t.prefix);
      ExtensionCompletes(sh.modules[t.dest].commands, t.prefix);
    }
    forall m: nat, p | Asks(sh, typed, m, p) ensures t == Goal(m, p) {
      TargetExactly(sh, typed, m, p);
    }
  }

  // ---------------------------------------------------------------- the driver

  /** get_destination_module: the first module of that name, or -1. */
  method GetDestination(modules: seq<Module>, name: seq<U8>) returns (m: int)
    ensures FirstNamed(modules, name, m)
  {
    m := 0;
    while m < |modules|
      invariant 0 <= m <= |modules| && NotNamed(modules, name, 0, m)
    {
      if modules[m].name == name {
        return;
      }
      m := m + 1;
    }
    m := -1;
  }

  /** The loops over spaces and strchr in get_command_to_complete, on a terminated line. */
  method FindTarget(sh: Shell, line: array<U8>, ghost s: seq<U8>) returns (dest: int, prefix: nat)
    requires sh.Valid() && RestAt(line[..], s, 0)
    ensures -1 <= dest < |sh.modules| && prefix <= |s|
    ensures Target(sh, s) == if dest >= 0 then Goal(dest, s[prefix..]) else Nothing
  {
    prefix := 0;
    var start := SkipSpaces(line, 0, s);
    assert start == NonSpace(s, 0) by { NonSpaceIs(s, 0, start); }
    if line[start] == 0 {
      return -1, 0;
    }
    var e := FindSpace(line, start, s);
    if sh.selected != -1 {
      return if e == NULL then sh.selected else -1, start;
    }
    if e == NULL || e - start + 1 >= MODULE_NAME_MAX_LEN {
      return -1, 0;
    }
    assert line[start..e] == s[start..e];
    dest := GetDestination(sh.modules, line[start..e]);
    if dest == -1 {
      return;
    }
    prefix := e + 1;
    var second := FindSpace(line, prefix, s);
    if second != NULL {
      dest := -1;
    }
  }

  /** The inner loop of completion: how far first and name agree, up to common. */
  method Agree(first: seq<U8>, common: nat, name: seq<U8>) returns (j: nat)
    requires common <= |first|
    ensures j == if common < Common2(first, name) then common else Common2(first, name)
  {
    j := 0;
    ghost var k := Common2(first, name);
    while j < common && j < |name| && first[j] == name[j]
      invariant j <= common && j <= k
    {
      j := j + 1;
    }
    assert j < k ==> first[..k][j] == name[..k][j];
  }

  lemma MatchingNext(names: seq<seq<U8>>, prefix: seq<U8>, i: nat)
    requires i < |names|
    ensures Matching(names[..i + 1], prefix)
         == if prefix <= names[i] then Matching(names[..i], prefix) + [names[i]] else Matching(names[..i], prefix)
  {
    assert names[..i + 1][..i] == names[..i];
  }

  lemma CommonNext(ms: seq<seq<U8>>, name: seq<U8>)
    requires ms != []
    ensures var k := Common2(ms[0], name);
            Common(ms + [name]) == if Common(ms) < k then Common(ms) else k
  {
    assert (ms + [name])[..|ms|] == ms;
  }

  /** The loop variables of completion for the matches ms seen so far. */
  predicate Scanned(ms: seq<seq<U8>>, first: seq<U8>, found: bool, common: int) {
    && (found <==> ms != [])
    && (found ==> first == ms[0])
    && common == if |ms| <= 1 then -1 else Common(ms)
  }

  /** The loop of completion over the commands of a module: the first match and, once there
      is a second, the length of what all matches have in common. */
  method Scan(names: seq<seq<U8>>, prefix: seq<U8>) returns (first: seq<U8>, found: bool, common: int)
    ensures Scanned(Matching(names, prefix), first, found, common)
  {
    first, found, common := [], false, -1;
    var i := 0;
    while i < |names|
      invariant 0 <= i <= |names|
      invariant Scanned(Matching(names[..i], prefix), first, found, common)
    {
      ghost var ms := Matching(names[..i], prefix);
      MatchingNext(names, prefix, i);
      if prefix <= names[i] {
        if !found {
          first, found := names[i], true;
        } else {
          CommonNext(ms, names[i]);
          assert |ms| == 1 ==> Common(ms) == |ms[0]|;
          if common < 0 {
            common := |first|;
          }
          common := Agree(first, common, names[i]);
        }
      }
      i := i + 1;
    }
    assert names[..|names|] == names;
  }

  /** The line went from was to now by writing bytes at len; the byte after them may have
      become a terminator, everything else is as it was. */
  ghost predicate Extended(was: seq<U8>, now: seq<U8>, len: nat, bytes: seq<U8>) {
    && |now| == |was| && len + |bytes| < |was|
    && (forall j :: 0 <= j < |was| && j != len + |bytes| ==>
          now[j] == if len <= j < len + |bytes| then bytes[j - len] else was[j])
    && now[len + |bytes|] in {0, was[len + |bytes|]}
  }

  /** The loop that appends bytes to the line. */
  method Append(line: array<U8>, len: nat, bytes: seq<U8>)
    requires len + |bytes| < line.Length
    modifies line
    ensures Extended(old(line[..]), line[..], len, bytes)
  {
    var i := 0;
    while i < |bytes|
      invariant 0 <= i <= |bytes| && Extended(old(line[..]), line[..], len, bytes[..i])
    {
      line[len + i] := bytes[i];
      i := i + 1;
    }
    assert bytes[..|bytes|] == bytes;
  }

  /** Complete a command prefix at the end of the line. */
  method AppendMatch(names: seq<seq<U8>>, line: array<U8>, len: nat, prefix: seq<U8>) returns (n: nat)
    requires forall c :: 0 <= c < |names| ==> |names[c]| <= COMMAND_MAX_LEN && 0 !in names[c]
    requires len + COMMAND_MAX_LEN + 1 < line.Length
    modifies line
    ensures n == |Extension(names, prefix)|
    ensures Extended(old(line[..]), line[..], len, Extension(names, prefix))
  {
    ExtensionBounds(names, prefix);
    var first, found, common := Scan(names, prefix);
    if !found {
      return 0;
    }
    MatchingCommon(names, prefix);
    var space := common < 0;
    if space {
      common := |first|;
    }
    var bytes := first[|prefix|..common];
    if space {
      bytes := bytes + [SPACE];
    }
    assert bytes == Extension(names, prefix);
    Append(line, len, bytes);
    n := common - |prefix| + (if space then 1 else 0);
  }

  lemma ExtendedAnswers(sh: Shell, typed: seq<U8>, was: seq<U8>, now: seq<U8>, len: nat, more: seq<U8>)
    requires sh.Valid() && 0 !in typed && Extended(was, now, len, Appended(sh, typed))
    requires more == now[len..len + |Appended(sh, typed)|]
    ensures Answers(sh, typed, more)
  {
    AppendedMeaning(sh, typed);
    assert more == Appended(sh, typed);
  }

  /** completion. The line holds len typed bytes; the result counts the bytes appended. */
  method Complete(sh: Shell, line: array<U8>, len: nat) returns (n: nat)
    requires sh.Valid() && line.Length == MAX_LINE_LEN && len < MAX_LINE_LEN && 0 !in line[..len]
    modifies line
    ensures n == |Appended(sh, old(line[..len]))|
    ensures Extended(old(line[..]), line[..], len, Appended(sh, old(line[..len])))
    ensures Answers(sh, old(line[..len]), line[len..len + n])
  {
    n := CompleteLine(sh, line, len);
    ExtendedAnswers(sh, old(line[..len]), old(line[..]), line[..], len, line[len..len + n]);
  }

  method CompleteLine(sh: Shell, line: array<U8>, len: nat) returns (n: nat)
    requires sh.Valid() && line.Length == MAX_LINE_LEN && len < MAX_LINE_LEN && 0 !in line[..len]
    modifies line
    ensures n == |Appended(sh, old(line[..len]))|
    ensures Extended(old(line[..]), line[..], len, Appended(sh, old(line[..len])))
  {
    if len >= MODULE_NAME_MAX_LEN + COMMAND_MAX_LEN - 1 {
      return 0;
    }
    ghost var typed := line[..len];
    AppendedTo(sh, typed);
    line[len] := 0;
    ghost var ended := line[..];
    assert RestAt(ended, typed, 0);
    var dest, start := FindTarget(sh, line, typed);
    if dest == -1 {
      return 0;
    }
    var prefix := line[start..len];
    assert prefix == typed[start..];
    n := AppendMatch(sh.modules[dest].commands, line, len, prefix);
    ExtendedTerminated(old(line[..]), ended, line[..], len, Appended(sh, typed));
  }

  lemma ExtendedTerminated(was: seq<U8>, ended: seq<U8>, now: seq<U8>, len: nat, bytes: seq<U8>)
    requires len < |was| && ended == was[len := 0] && Extended(ended, now, len, bytes)
    ensures Extended(was, now, len, bytes)
  {
  }

  lemma {:induction false} WholeString(s: seq<U8>)
    requires 0 !in s
    ensures CString(s) == s
  {
  }
}
