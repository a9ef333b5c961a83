/** Splitting a command line into arguments in place: line2argv in
    drivers/console/console_handler_shell.c. */
module ShellArgv {
  import opened CTypes
  import opened CStrings

  const NULL := -1

  // ---------------------------------------------------------------- arguments of a string

  /** An argument starts at a byte that is not a space and follows none but a space. */
  predicate IsStart(s: seq<U8>, i: nat) {
    i < |s| && s[i] != SPACE && (i == 0 || s[i - 1] == SPACE)
  }

  /** The argument starts below n, in order. */
  function Starts(s: seq<U8>, n: nat): seq<nat> {
    if n == 0 then [] else if IsStart(s, n - 1) then Starts(s, n - 1) + [n - 1] else Starts(s, n - 1)
  }

  /** The first space at or after i, or the end of the string. */
  function EndOf(s: seq<U8>, i: nat): (e: nat)
    requires i <= |s|
    ensures i <= e <= |s| && (e < |s| ==> s[e] == SPACE) && (forall j :: i <= j < e ==> s[j] != SPACE)
    decreases |s| - i
  {
    if i == |s| || s[i] == SPACE then i else EndOf(s, i + 1)
  }

  /** The argument that starts at i: a maximal run without spaces. */
  function Argument(s: seq<U8>, i: nat): seq<U8>
    requires i <= |s|
  {
    s[i..EndOf(s, i)]
  }

  /** No argument starts in a run of spaces or inside an argument. */
  lemma {:induction false} StartsSkip(s: seq<U8>, m: nat, n: nat)
    requires m <= n && forall i :: m <= i < n ==> !IsStart(s, i)
    ensures Starts(s, n) == Starts(s, m)
  {
    if m < n { StartsSkip(s, m, n - 1); }
  }

  /** Starts lists exactly the argument starts. */
  lemma {:induction false} StartsExact(s: seq<U8>, n: nat, i: nat)
    ensures i in Starts(s, n) <==> i < n && IsStart(s, i)
  {
    if n > 0 { StartsExact(s, n - 1, i); }
  }

  /** In increasing order. */
  lemma {:induction false} StartsOrdered(s: seq<U8>, n: nat)
    ensures forall j, k :: 0 <= j < k < |Starts(s, n)| ==> Starts(s, n)[j] < Starts(s, n)[k]
    ensures forall k :: 0 <= k < |Starts(s, n)| ==> Starts(s, n)[k] < n
  {
    if n > 0 { StartsOrdered(s, n - 1); }
  }

  // ---------------------------------------------------------------- in place

  /** From p on the buffer holds the rest of the string s and its terminator. */
  ghost predicate RestAt(str: seq<U8>, s: seq<U8>, p: nat) {
    && p <= |s| < |str| && str[|s|] == 0 && 0 !in s
    && forall j :: p <= j < |s| ==> str[j] == s[j]
  }

  /** The loop over spaces; it stops at the terminator. */
  method SkipSpaces(str: array<U8>, p: nat, ghost s: seq<U8>) returns (q: nat)
    requires RestAt(str[..], s, p)
    ensures p <= q <= |s| && (q < |s| ==> s[q] != SPACE) && (str[q] == 0 <==> q == |s|)
    ensures forall j :: p <= j < q ==> s[j] == SPACE
  {
    q := p;
    while str[q] != 0 && str[q] == SPACE
      invariant p <= q <= |s| && str[q] == str[..][q] && forall j :: p <= j < q ==> s[j] == SPACE
      decreases |s| - q
    {
      q := q + 1;
    }
  }

  /** strchr(str, ' '). */
  method FindSpace(str: array<U8>, p: nat, ghost s: seq<U8>) returns (q: int)
    requires RestAt(str[..], s, p)
    ensures q == if EndOf(s, p) < |s| then EndOf(s, p) else NULL
  {
    q := p;
    while str[q] != SPACE && str[q] != 0
      invariant p <= q <= EndOf(s, p) && str[q] == str[..][q]
      decreases EndOf(s, p) - q
    {
      q := q + 1;
    }
    if str[q] != SPACE {
      q := NULL;
    }
  }

  /** The first argc entries of argv are the argument starts up to p, the last of them at p;
      all but the last argument are already terminated; from p on the line is untouched. */
  ghost predicate Progress(s: seq<U8>, str: seq<U8>, argv: seq<int>, argc: nat, p: nat) {
    && p < |s| && RestAt(str, s, p)
    && 0 < argc <= |argv| && argv[..argc] == Starts(s, p + 1) && argv[argc - 1] == p
    && forall k :: 0 <= k < argc - 1 ==>
         && 0 <= argv[k] < p && EndOf(s, argv[k]) < p
         && TerminatedAt(str, argv[k], Argument(s, argv[k]))
  }

  lemma {:induction false} StartsGrow(s: seq<U8>, m: nat, n: nat)
    requires m <= n
    ensures |Starts(s, m)| <= |Starts(s, n)|
  {
    if m < n { StartsGrow(s, m, n - 1); }
  }

  /** From an argument at p the next one, if any, starts where the spaces after it end. */
  lemma NextStart(s: seq<U8>, p: nat, q: nat, r: nat)
    requires p < |s| && s[p] != SPACE && q == EndOf(s, p) < r <= |s|
    requires (forall j :: q <= j < r ==> s[j] == SPACE) && (r < |s| ==> s[r] != SPACE)
    ensures Starts(s, r) == Starts(s, p + 1)
    ensures r < |s| ==> Starts(s, r + 1) == Starts(s, p + 1) + [r]
  {
    StartsSkip(s, p + 1, r);
  }

  /** All arguments are in argv and terminated. */
  ghost predicate Complete(s: seq<U8>, str: seq<U8>, argv: seq<int>, argc: nat) {
    && argc <= |argv| && argv[..argc] == Starts(s, |s|)
    && forall k :: 0 <= k < argc ==>
         0 <= argv[k] < |s| && TerminatedAt(str, argv[k], Argument(s, argv[k]))
  }

  /** A write past the end of a terminated argument leaves it readable. */
  lemma TerminatedKept(str: seq<U8>, a: nat, t: seq<U8>, q: nat)
    requires TerminatedAt(str, a, t) && a + |t| < q < |str|
    ensures TerminatedAt(str[q := 0], a, t)
  {
  }

  /** Writing a NUL at the end of the last argument terminates it and keeps the others. */
  lemma Terminate(s: seq<U8>, str: seq<U8>, argv: seq<int>, argc: nat, p: nat, q: nat)
    requires Progress(s, str, argv, argc, p) && q == EndOf(s, p)
    ensures forall k :: 0 <= k < argc ==>
              0 <= argv[k] < |s| && EndOf(s, argv[k]) <= q && TerminatedAt(str[q := 0], argv[k], Argument(s, argv[k]))
  {
    forall k | 0 <= k < argc
      ensures 0 <= argv[k] < |s| && EndOf(s, argv[k]) <= q && TerminatedAt(str[q := 0], argv[k], Argument(s, argv[k]))
    {
      if k < argc - 1 {
        TerminatedKept(str, argv[k], Argument(s, argv[k]), q);
      } else {
        assert str[q := 0][p..q] == str[p..|s|][..q - p] == s[p..q];
      }
    }
  }

  lemma StartNotSpace(s: seq<U8>, argv: seq<int>, argc: nat, p: nat)
    requires p < |s| && 0 < argc <= |argv| && argv[..argc] == Starts(s, p + 1) && argv[argc - 1] == p
    ensures s[p] != SPACE
  {
    assert argv[..argc][argc - 1] == p;
    StartsExact(s, p + 1, p);
  }

  /** The state after terminating the argument at p and skipping to r. */
  lemma NextRound(s: seq<U8>, str: seq<U8>, argv: seq<int>, argc: nat, p: nat, q: nat, r: nat)
    requires Progress(s, str, argv, argc, p) && q == EndOf(s, p) < r <= |s| && argc < |argv|
    requires (forall j :: q <= j < r ==> s[j] == SPACE) && (r < |s| ==> s[r] != SPACE)
    ensures r < |s| ==> Progress(s, str[q := 0], argv[argc := r], argc + 1, r)
    ensures r == |s| ==> Complete(s, str[q := 0], argv, argc)
  {
    Terminate(s, str, argv, argc, p, q);
    StartNotSpace(s, argv, argc, p);
    NextStart(s, p, q, r);
    if r < |s| {
      assert argv[argc := r][..argc + 1] == argv[..argc] + [r];
    }
  }

  /** An argument that runs to the end of the string is already terminated. */
  lemma LastRound(s: seq<U8>, str: seq<U8>, argv: seq<int>, argc: nat, p: nat)
    requires Progress(s, str, argv, argc, p) && EndOf(s, p) == |s|
    ensures Complete(s, str, argv, argc)
  {
    Terminate(s, str, argv, argc, p, |s|);
    assert str[|s| := 0] == str;
    StartsSkip(s, p + 1, |s|);
  }

  lemma FirstRound(s: seq<U8>, str: seq<U8>, argv: seq<int>, p: nat)
    requires RestAt(str, s, 0) && p < |s| && s[p] != SPACE && |argv| > 0 && argv[0] == p
    requires forall j :: 0 <= j < p ==> s[j] == SPACE
    ensures Progress(s, str, argv, 1, p)
  {
    StartsSkip(s, 0, p);
    assert IsStart(s, p);
    assert argv[..1] == [p];
  }

  lemma CompleteKept(s: seq<U8>, str: seq<U8>, argv: seq<int>, argc: nat, x: int)
    requires Complete(s, str, argv, argc) && argc < |argv|
    ensures Complete(s, str, argv[argc := x], argc)
  {
    assert argv[argc := x][..argc] == argv[..argc];
  }

  /** One round of the loop: terminate the argument at p and look for the next one. */
  method SplitOff(str: array<U8>, argv: array<int>, argc: nat, p: nat, q: nat, ghost s: seq<U8>)
    returns (r: nat, more: bool)
    requires Progress(s, str[..], argv[..], argc, p) && q == EndOf(s, p) < |s| && argc < argv.Length
    modifies str, argv
    ensures p < r <= |s|
    ensures more ==> Progress(s, str[..], argv[..], argc + 1, r)
    ensures !more ==> Complete(s, str[..], argv[..], argc)
  {
    str[q] := 0;
    assert str[..] == old(str[..])[q := 0];
    r := SkipSpaces(str, q + 1, s);
    NextRound(s, old(str[..]), argv[..], argc, p, q, r);
    more := str[r] != 0;
    if more {
      argv[argc] := r;
      assert argv[..] == old(argv[..])[argc := r];
    }
  }

  /** What line2argv leaves behind for the string s. */
  ghost predicate Parsed(s: seq<U8>, size: nat, str: seq<U8>, argv: seq<int>, argc: nat) {
    && argc == (if |Starts(s, |s|)| < size then |Starts(s, |s|)| else 0)
    && (argc > 0 ==> argc < |argv| && argv[argc] == NULL && Complete(s, str, argv, argc))
  }

  method FinishArgv(argv: array<int>, argc: nat, size: nat, ghost s: seq<U8>, ghost str: seq<U8>)
    requires 0 < argc < size <= argv.Length && Complete(s, str, argv[..], argc)
    modifies argv
    ensures Parsed(s, size, str, argv[..], argc)
  {
    CompleteKept(s, str, argv[..], argc, NULL);
    argv[argc] := NULL;
    assert argv[..] == old(argv[..])[argc := NULL];
    assert |Starts(s, |s|)| == |argv[..argc]|;
  }

  lemma TooMany(s: seq<U8>, size: nat, str: seq<U8>, argv: seq<int>, p: nat)
    requires Progress(s, str, argv, size, p)
    ensures Parsed(s, size, str, argv, 0)
  {
    assert |argv[..size]| == size;
    StartsGrow(s, p + 1, |s|);
  }

  /** The main loop of line2argv, from the first argument at start on. */
  method SplitRest(str: array<U8>, argv: array<int>, size: nat, start: nat, ghost s: seq<U8>) returns (argc: nat)
    requires 2 <= size <= argv.Length && Progress(s, str[..], argv[..], 1, start)
    modifies str, argv
    ensures Parsed(s, size, str[..], argv[..], argc)
  {
    argc := 1;
    var p := start;
    var q := FindSpace(str, p, s);
    while q != NULL
      invariant 0 < argc < size && Progress(s, str[..], argv[..], argc, p)
      invariant q == if EndOf(s, p) < |s| then EndOf(s, p) else NULL
      decreases |s| - p
    {
      var more;
      p, more := SplitOff(str, argv, argc, p, q, s);
      if !more {
        FinishArgv(argv, argc, size, s, str[..]);
        return;
      }
      argc := argc + 1;
      if argc == size {
        TooMany(s, size, str[..], argv[..], p);
        return 0;
      }
      q := FindSpace(str, p, s);
    }
    LastRound(s, str[..], argv[..], argc, p);
    FinishArgv(argv, argc, size, s, str[..]);
  }

  /** line2argv. The line is a terminated string; argv has size entries. The arguments are
      exactly the maximal space-free runs, in order, each readable as a terminated string
      after the edits; 0 is returned exactly when there are none or at least size of them. */
  method Line2Argv(str: array<U8>, argv: array<int>, size: nat) returns (argc: nat)
    requires 2 <= size <= argv.Length && 0 in str[..]
    modifies str, argv
    ensures Parsed(CString(old(str[..])), size, str[..], argv[..], argc)
  {
    ghost var s := CString(str[..]);
    assert RestAt(str[..], s, 0);
    if str[0] == 0 {
      return 0;
    }
    var p := SkipSpaces(str, 0, s);
    StartsSkip(s, 0, p);
    if str[p] == 0 {
      return 0;
    }
    argv[0] := p;
    FirstRound(s, str[..], argv[..], p);
    argc := SplitRest(str, argv, size, p, s);
  }

  /** Each argument reads back, as a terminated string, as the run it was in the line. */
  lemma ArgumentsReadBack(s: seq<U8>, size: nat, str: seq<U8>, argv: seq<int>, argc: nat, k: nat)
    requires Parsed(s, size, str, argv, argc) && k < argc
    ensures 0 <= argv[k] < |s| && argv[k] <= |str| && argv[k] == Starts(s, |s|)[k]
    ensures CString(str[argv[k]..]) == Argument(s, argv[k])
  {
    assert argv[..argc][k] == argv[k];
    TerminatedReads(str, argv[k], Argument(s, argv[k]));
  }
}
