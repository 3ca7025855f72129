/** The tokeniser and command dispatch of the `mysh` shell (`main.c`): a line is cut
    into space-separated tokens, and `run` decides from the tokens what the child
    process executes and whether the shell waits for it. Processes, files and the
    `!!` history are outside the model; `run`'s decision is returned as a value. */
module Shell {
  import opened Wrappers

  /** `MAX_LINE`: `fgets` reads at most `MaxLine - 1` characters, and `args` has room for
      `MaxLine / 2` tokens and the terminating `NULL`. */
  const MaxLine := 80

  /** What `strtok(…, " ")` yields: non-empty and free of the delimiter. Only the space
      separates tokens; tabs are token characters. */
  ghost predicate IsToken(t: string) {
    t != [] && ' ' !in t
  }

  /** The length of the run of non-space characters at the front of `s`. */
  function WordLength(s: string): (n: nat)
    ensures n <= |s| && ' ' !in s[..n]
    ensures n < |s| ==> s[n] == ' '
  {
    if s == [] || s[0] == ' ' then 0
    else
      var n := WordLength(s[1..]);
      assert s[..n + 1] == [s[0]] + s[1..][..n];
      n + 1
  }

  /** `cut(args, input)`: the maximal runs of non-space characters of `input`, in
      order; their number is the `i` that `cut` returns. */
  function Cut(s: string): (ts: seq<string>)
    ensures forall k :: 0 <= k < |ts| ==> IsToken(ts[k])
    decreases |s|
  {
    if s == [] then []
    else if s[0] == ' ' then Cut(s[1..])
    else
      var n := WordLength(s);
      [s[..n]] + Cut(s[n..])
  }

  /** The characters of `s` that are not spaces, in order. */
  function NonSpace(s: string): string {
    if s == [] then [] else (if s[0] == ' ' then [] else [s[0]]) + NonSpace(s[1..])
  }

  function Flatten(ts: seq<string>): string {
    if ts == [] then [] else ts[0] + Flatten(ts[1..])
  }

  /** Tokens written back with one space between each two. */
  function Join(ts: seq<string>): string {
    if ts == [] then []
    else if |ts| == 1 then ts[0]
    else ts[0] + " " + Join(ts[1..])
  }

  lemma {:induction false} NonSpaceAppend(a: string, b: string)
    ensures NonSpace(a + b) == NonSpace(a) + NonSpace(b)
  {
    if a != [] {
      assert (a + b)[1..] == a[1..] + b;
      NonSpaceAppend(a[1..], b);
    } else {
      assert a + b == b;
    }
  }

  lemma {:induction false} NonSpaceWord(w: string)
    requires ' ' !in w
    ensures NonSpace(w) == w
  {
    if w != [] {
      NonSpaceWord(w[1..]);
      assert w == [w[0]] + w[1..];
    }
  }

  /** Nothing but spaces is lost: the tokens, run together, are the line's non-space
      characters. */
  lemma {:induction false} CutKeepsText(s: string)
    ensures Flatten(Cut(s)) == NonSpace(s)
    decreases |s|
  {
    if s != [] {
      if s[0] == ' ' {
        CutKeepsText(s[1..]);
      } else {
        var n := WordLength(s);
        CutKeepsText(s[n..]);
        assert s == s[..n] + s[n..];
        NonSpaceAppend(s[..n], s[n..]);
        NonSpaceWord(s[..n]);
        assert ([s[..n]] + Cut(s[n..]))[1..] == Cut(s[n..]);
      }
    }
  }

  lemma {:induction false} WordLengthOfToken(w: string, rest: string)
    requires ' ' !in w && (rest == [] || rest[0] == ' ')
    ensures WordLength(w + rest) == |w|
  {
    if w == [] {
      assert w + rest == rest;
    } else {
      assert (w + rest)[1..] == w[1..] + rest;
      WordLengthOfToken(w[1..], rest);
    }
  }

  /** Tokens joined with single spaces cut back into the same tokens. */
  lemma {:induction false} CutJoin(ts: seq<string>)
    requires forall k :: 0 <= k < |ts| ==> IsToken(ts[k])
    ensures Cut(Join(ts)) == ts
  {
    if ts != [] {
      var rest := if |ts| == 1 then [] else " " + Join(ts[1..]);
      var s := ts[0] + rest;
      assert Join(ts) == s;
      WordLengthOfToken(ts[0], rest);
      assert s[..|ts[0]|] == ts[0] && s[|ts[0]|..] == rest;
      assert s[0] == ts[0][0];
      if |ts| == 1 {
        assert Cut(s) == [ts[0]] + Cut([]);
      } else {
        CutJoin(ts[1..]);
        assert rest[1..] == Join(ts[1..]);
        assert Cut(rest) == Cut(Join(ts[1..]));
        assert ts == [ts[0]] + ts[1..];
      }
    }
  }

  /** `strtok` breaks at every space, wherever it stands: cutting a line at one of its
      spaces gives the tokens of the part before followed by those of the part after.
      With `Cut([]) == []` and `CutJoin` on a single token this fixes the tokens of
      every line, whatever runs of leading, repeated or trailing spaces it has. */
  lemma {:induction false} CutSplitsAtSpace(a: string, b: string)
    ensures Cut(a + [' '] + b) == Cut(a) + Cut(b)
    decreases |a|
  {
    var s := a + [' '] + b;
    if a == [] {
      assert s[1..] == b;
    } else if a[0] == ' ' {
      assert s[1..] == a[1..] + [' '] + b;
      CutSplitsAtSpace(a[1..], b);
    } else {
      var n := WordLength(a);
      var rest := a[n..] + [' '] + b;
      assert s == a[..n] + rest;
      WordLengthOfToken(a[..n], rest);
      assert s[..n] == a[..n] && s[n..] == rest;
      CutSplitsAtSpace(a[n..], b);
      assert Cut(a) == [a[..n]] + Cut(a[n..]);
    }
  }

  /** Every token needs a character of its own and a separating space after it (except
      the last), so a line of `n` characters has at most `(n + 1) / 2` tokens. */
  lemma {:induction false} CutBound(s: string)
    ensures |Cut(s)| <= (|s| + 1) / 2
    decreases |s|
  {
    if s != [] {
      if s[0] == ' ' {
        CutBound(s[1..]);
      } else {
        var n := WordLength(s);
        if n < |s| {
          CutBound(s[n + 1..]);
          assert Cut(s[n..]) == Cut(s[n + 1..]) by {
            assert s[n..][1..] == s[n + 1..];
          }
        }
      }
    }
  }

  /** A line read by `fgets(input, MAX_LINE, stdin)` has at most 79 characters, so its
      tokens and the closing `NULL` fit in `args[MAX_LINE/2 + 1]`. */
  lemma CutFitsArgs(s: string)
    requires |s| <= MaxLine - 1
    ensures |Cut(s)| + 1 <= MaxLine / 2 + 1
  {
    CutBound(s);
  }

  // ---------------------------------------------------------------------------
  // Finding operators among the tokens.

  /** `check_sign(args, sign, i)`: whether some token equals `sign`. */
  method CheckSign(args: seq<string>, sign: string) returns (found: bool)
    ensures found <==> sign in args
  {
    var n := 0;
    while n < |args|
      invariant n <= |args| && sign !in args[..n]
    {
      if args[n] == sign {
        return true;
      }
      assert args[..n + 1] == args[..n] + [args[n]];
      n := n + 1;
    }
    assert args[..n] == args;
    return false;
  }

  /** `n` is the first position of `sign`. */
  ghost predicate IsFirst(args: seq<string>, sign: string, n: nat) {
    n < |args| && args[n] == sign && sign !in args[..n]
  }

  /** `sign_pos(args, sign, i)`: the first position of `sign`. The function has no
      return value when `sign` is absent, and every call follows a `check_sign`. */
  method SignPos(args: seq<string>, sign: string) returns (n: nat)
    requires sign in args
    ensures IsFirst(args, sign, n)
  {
    n := 0;
    while n < |args|
      invariant n <= |args| && sign !in args[..n]
    {
      if args[n] == sign {
        return n;
      }
      assert args[..n + 1] == args[..n] + [args[n]];
      n := n + 1;
    }
    assert false;
  }

  // ---------------------------------------------------------------------------
  // `run`.

  /** The token after position `n`, or `None` for the `NULL` that ends `args`. */
  function After(args: seq<string>, n: nat): Option<string> {
    if n + 1 < |args| then Some(args[n + 1]) else None
  }

  /** What the forked child does: `execvp` of the given argument list, with standard
      output or input redirected to a file (`None` standing for a `NULL` file name), or
      two processes joined by a pipe. */
  datatype Child =
    | Background(argv: seq<string>)
    | RedirectOut(argv: seq<string>, file: Option<string>)
    | RedirectIn(argv: seq<string>, file: Option<string>)
    | Pipe(left: seq<string>, right: seq<string>)
    | Exec(argv: seq<string>)

  /** `run`'s decision: change directory in the shell itself (`None` standing for the
      `NULL` after a final `cd`), or fork a child and perhaps wait for it. */
  datatype Plan =
    | ChangeDir(target: Option<string>)
    | Fork(child: Child, parentWaits: bool)

  /** The pipe split: `args1` is the tokens before `n`, `args2` those after it. */
  function PipeSplit(args: seq<string>, n: nat): (split: (seq<string>, seq<string>))
    requires n < |args|
    ensures |split.0| == n && |split.1| == |args| - n - 1
  {
    (args[..n], args[n + 1..])
  }

  /** Around the `|` it splits at, the two halves are the whole command. */
  lemma PipeSplitRoundTrip(args: seq<string>, n: nat)
    requires n < |args| && args[n] == "|"
    ensures PipeSplit(args, n).0 + ["|"] + PipeSplit(args, n).1 == args
  {
    assert args == args[..n] + [args[n]] + args[n + 1..];
  }

  /** The parent's test as written, `strcmp(args[i-1], "&") != 0`: `None` where `i - 1`
      is not a position of `args`, which the code reads all the same. */
  function ParentWaitsAsWritten(args: seq<string>): Option<bool> {
    var k := |args| - 1;
    if 0 <= k < |args| then Some(args[k] != "&") else None
  }

  /** A blank line, or one of spaces only, leaves no tokens, and the parent's test then
      reads `args[-1]`, before the start of the array. */
  lemma BlankLineReadsBeforeArgs(spaces: nat)
    ensures Cut(seq(spaces, _ => ' ')) == []
    ensures ParentWaitsAsWritten(Cut(seq(spaces, _ => ' '))) == None
  {
    BlankCut(seq(spaces, _ => ' '));
  }

  lemma {:induction false} BlankCut(s: string)
    requires forall k :: 0 <= k < |s| ==> s[k] == ' '
    ensures Cut(s) == []
    decreases |s|
  {
    if s != [] {
      BlankCut(s[1..]);
    }
  }

  /** Whether the parent waits: unless the command was sent to the background by a
      final `&`. With no tokens there is nothing in the background, so it waits. */
  function ParentWaits(args: seq<string>): (waits: bool)
    ensures !waits <==> exists front :: args == front + ["&"]
  {
    if args != [] && args[|args| - 1] == "&" then
      assert args == args[..|args| - 1] + ["&"];
      false
    else
      true
  }

  /** The corrected test agrees with the code wherever the code's read is in bounds. */
  lemma ParentWaitsAgrees(args: seq<string>)
    requires ParentWaitsAsWritten(args).Some?
    ensures ParentWaits(args) == ParentWaitsAsWritten(args).value
  {
  }

  /** `run(args, input, i)`: the first operator present, in the fixed order `cd`, `&`,
      `>`, `<`, `|`, decides; each is looked for anywhere among the tokens, its first
      occurrence counts, and the tokens before it form the command. */
  method Run(args: seq<string>) returns (plan: Plan)
    ensures plan.ChangeDir? <==> "cd" in args
    ensures plan.ChangeDir? ==> exists n :: IsFirst(args, "cd", n) && plan.target == After(args, n)
    ensures plan.Fork? ==> plan.parentWaits == ParentWaits(args)
    ensures plan.Fork? && plan.child.Background? <==> "cd" !in args && "&" in args
    ensures plan.Fork? && plan.child.Background? ==> IsFirst(args, "&", |plan.child.argv|) && plan.child.argv <= args
    ensures plan.Fork? && plan.child.RedirectOut? <==> "cd" !in args && "&" !in args && ">" in args
    ensures plan.Fork? && plan.child.RedirectOut? ==>
      IsFirst(args, ">", |plan.child.argv|) && plan.child.argv <= args && plan.child.file == After(args, |plan.child.argv|)
    ensures plan.Fork? && plan.child.RedirectIn? <==> "cd" !in args && "&" !in args && ">" !in args && "<" in args
    ensures plan.Fork? && plan.child.RedirectIn? ==>
      IsFirst(args, "<", |plan.child.argv|) && plan.child.argv <= args && plan.child.file == After(args, |plan.child.argv|)
    ensures plan.Fork? && plan.child.Pipe? <==>
      "cd" !in args && "&" !in args && ">" !in args && "<" !in args && "|" in args
    ensures plan.Fork? && plan.child.Pipe? ==>
      IsFirst(args, "|", |plan.child.left|) && plan.child.left + ["|"] + plan.child.right == args
    ensures plan.Fork? && plan.child.Exec? ==> plan.child.argv == args
  {
    var isCd := CheckSign(args, "cd");
    if isCd {
      var n := SignPos(args, "cd");
      return ChangeDir(After(args, n));
    }
    var child: Child;
    var background := CheckSign(args, "&");
    var output := CheckSign(args, ">");
    var input := CheckSign(args, "<");
    var piped := CheckSign(args, "|");
    if background {
      var n := SignPos(args, "&");
      child := Background(args[..n]);
    } else if output {
      var n := SignPos(args, ">");
      child := RedirectOut(args[..n], After(args, n));
    } else if input {
      var n := SignPos(args, "<");
      child := RedirectIn(args[..n], After(args, n));
    } else if piped {
      var n := SignPos(args, "|");
      PipeSplitRoundTrip(args, n);
      var split := PipeSplit(args, n);
      child := Pipe(split.0, split.1);
    } else {
      child := Exec(args);
    }
    return Fork(child, ParentWaits(args));
  }
}
