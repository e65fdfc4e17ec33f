/**
 The option parser of src/compat/fuse_opt.c as it behaves with an empty option table and no
 callback: it gathers every `-o` group into one and leaves the other arguments in order.
 */
module OptionParser {
  import opened Schema

  const NUL: char := '\0'

  // ----- what parsing means -----

  function Join(pieces: seq<string>): string
    requires pieces != []
  {
    if |pieces| == 1 then pieces[0] else Join(pieces[..|pieces| - 1]) + "," + pieces[|pieces| - 1]
  }

  /** The text between commas. */
  function Split(s: string): (pieces: seq<string>)
    ensures pieces != []
  {
    if s == "" then [""]
    else
      var rest := Split(s[1..]);
      if s[0] == ',' then [""] + rest else [[s[0]] + rest[0]] + rest[1..]
  }

  /** The arguments after the program name: the texts of the option groups, and all the others. */
  datatype Classified = Classified(groups: seq<string>, others: seq<string>)

  /** None when the last argument is a `-o` without its group. */
  function Classify(args: seq<string>): Option<Classified> {
    if args == [] then Some(Classified([], []))
    else if "-o" < args[0] then
      match Classify(args[1..])
      case None => None
      case Some(c) => Some(c.(groups := [args[0][2..]] + c.groups))
    else if args[0] == "-o" then
      if |args| == 1 then None
      else
        match Classify(args[2..])
        case None => None
        case Some(c) => Some(c.(groups := [args[1]] + c.groups))
    else if args[0] == "--" then Some(Classified([], args))
    else
      match Classify(args[1..])
      case None => None
      case Some(c) => Some(c.(others := [args[0]] + c.others))
  }

  /** The separator `--` comes last: nothing follows it. */
  predicate EndsInSeparator(others: seq<string>) {
    others != [] && others[|others| - 1] == "--" && "--" !in others[..|others| - 1]
  }

  /** One group in front, then the rest; a trailing separator goes only if there is no group. */
  function Assemble(program: string, c: Classified): seq<string> {
    if c.groups != [] then [program, "-o", Join(c.groups)] + c.others
    else if EndsInSeparator(c.others) then [program] + c.others[..|c.others| - 1]
    else [program] + c.others
  }

  function Normal(args: seq<string>): Option<seq<string>>
    requires args != []
  {
    match Classify(args[1..])
    case None => None
    case Some(c) => Some(Assemble(args[0], c))
  }

  lemma {:induction false} JoinAppend(a: seq<string>, b: seq<string>)
    requires a != [] && b != []
    ensures Join(a + b) == Join(a) + "," + Join(b)
  {
    assert (a + b)[..|a + b| - 1] == a + b[..|b| - 1];
    if |b| == 1 {
      assert a + b[..0] == a;
    } else {
      JoinAppend(a, b[..|b| - 1]);
    }
  }

  /** Splitting a group at its commas loses nothing: the joined pieces are the group. */
  lemma {:induction false} JoinSplit(s: string)
    ensures Join(Split(s)) == s
  {
    if s != "" {
      var rest := Split(s[1..]);
      JoinSplit(s[1..]);
      if s[0] == ',' {
        JoinAppend([""], rest);
        assert "," + s[1..] == s;
      } else {
        JoinHead(s[0], rest);
      }
    }
  }

  lemma {:induction false} JoinHead(c: char, pieces: seq<string>)
    requires pieces != []
    ensures Join([[c] + pieces[0]] + pieces[1..]) == [c] + Join(pieces)
  {
    var longer := [[c] + pieces[0]] + pieces[1..];
    if |pieces| > 1 {
      var n := |pieces| - 1;
      JoinHead(c, pieces[..n]);
      assert longer[..n] == [[c] + pieces[0]] + pieces[..n][1..];
    }
  }

  /** No piece holds a comma. */
  lemma {:induction false} SplitPieces(s: string)
    ensures forall k :: 0 <= k < |Split(s)| ==> ',' !in Split(s)[k]
  {
    if s != "" {
      SplitPieces(s[1..]);
    }
  }

  /** All the pieces of all the groups, in the order of the input. */
  function Pieces(groups: seq<string>): (pieces: seq<string>)
    ensures groups != [] ==> pieces != []
  {
    if groups == [] then [] else Pieces(groups[..|groups| - 1]) + Split(groups[|groups| - 1])
  }

  lemma {:induction false} PiecesAreWhole(groups: seq<string>)
    ensures forall piece :: piece in Pieces(groups) ==> ',' !in piece
  {
    if groups != [] {
      PiecesAreWhole(groups[..|groups| - 1]);
      SplitPieces(groups[|groups| - 1]);
    }
  }

  lemma {:induction false} JoinPieces(groups: seq<string>)
    requires groups != []
    ensures Join(Pieces(groups)) == Join(groups)
  {
    var n := |groups| - 1;
    JoinSplit(groups[n]);
    if n == 0 {
      assert Pieces(groups) == Split(groups[0]);
    } else {
      JoinPieces(groups[..n]);
      JoinAppend(Pieces(groups[..n]), Split(groups[n]));
    }
  }

  /** No option group up to the separator. */
  predicate NoGroups(args: seq<string>) {
    args == [] || args[0] == "--" || (!("-o" <= args[0]) && NoGroups(args[1..]))
  }

  lemma {:induction false} NoGroupsKept(args: seq<string>)
    requires NoGroups(args)
    ensures Classify(args) == Some(Classified([], args))
  {
    if args != [] && args[0] != "--" {
      NoGroupsKept(args[1..]);
      assert [args[0]] + args[1..] == args;
    }
  }

  /** The other arguments hold no group, whatever follows the separator. */
  lemma {:induction false} OthersAreOthers(args: seq<string>)
    requires Classify(args).Some?
    ensures NoGroups(Classify(args).value.others)
    decreases |args|
  {
    if args == [] {
    } else if "-o" < args[0] {
      OthersAreOthers(args[1..]);
    } else if args[0] == "-o" {
      OthersAreOthers(args[2..]);
    } else if args[0] != "--" {
      OthersAreOthers(args[1..]);
      var rest := Classify(args[1..]).value.others;
      assert ([args[0]] + rest)[1..] == rest;
    }
  }

  lemma {:induction false} DropLast(others: seq<string>)
    requires NoGroups(others) && others != []
    ensures NoGroups(others[..|others| - 1])
  {
    if others[0] != "--" && |others| > 1 {
      DropLast(others[1..]);
      assert others[..|others| - 1][1..] == others[1..][..|others| - 2];
    }
  }

  lemma GroupedIsNormal(program: string, group: string, others: seq<string>)
    requires NoGroups(others)
    ensures var out := [program, "-o", group] + others;
      Normal(out) == Some(out)
  {
    var out := [program, "-o", group] + others;
    NoGroupsKept(others);
    assert out[1..] == ["-o", group] + others;
    assert out[1..][2..] == others;
    assert !("-o" < "-o");
    assert [group] + [] == [group] && Join([group]) == group;
  }

  lemma UngroupedIsNormal(program: string, others: seq<string>)
    requires NoGroups(others) && !EndsInSeparator(others)
    ensures Normal([program] + others) == Some([program] + others)
  {
    NoGroupsKept(others);
    assert ([program] + others)[1..] == others;
  }

  lemma AssembleIsNormal(program: string, c: Classified)
    requires NoGroups(c.others)
    ensures Assemble(program, c) != [] && Normal(Assemble(program, c)) == Some(Assemble(program, c))
  {
    if c.groups != [] {
      GroupedIsNormal(program, Join(c.groups), c.others);
    } else if EndsInSeparator(c.others) {
      var front := c.others[..|c.others| - 1];
      DropLast(c.others);
      assert front != [] ==> front[|front| - 1] in front;
      UngroupedIsNormal(program, front);
    } else {
      UngroupedIsNormal(program, c.others);
    }
  }

  /** Parsing its own output changes nothing. */
  lemma NormalIsNormal(args: seq<string>)
    requires args != [] && Normal(args).Some?
    ensures Normal(args).value != [] && Normal(Normal(args).value) == Normal(args)
  {
    OthersAreOthers(args[1..]);
    AssembleIsNormal(args[0], Classify(args[1..]).value);
  }

  // ----- the code -----

  /** `struct fuse_args`: a growing array whose last slot stands for the terminating null. */
  class FuseArgs {
    var argv: array<string>
    var argc: nat

    ghost predicate Valid()
      reads this
    {
      argc < argv.Length
    }

    function Contents(): seq<string>
      reads this, argv
      requires Valid()
    {
      argv[..argc]
    }

    constructor ()
      ensures Valid() && fresh(argv) && Contents() == []
    {
      argv := new string[1];
      argc := 0;
    }

    /** `fuse_opt_add_arg`: reallocate, append, terminate. */
    method AddArg(arg: string)
      requires Valid()
      modifies this
      ensures Valid() && fresh(argv) && Contents() == old(Contents()) + [arg]
    {
      var newargv := new string[argc + 2];
      for k := 0 to argc
        invariant argv == old(argv) && argc == old(argc) && fresh(newargv)
        invariant argv[..argc] == old(Contents()) && newargv[..k] == argv[..k]
      {
        newargv[k] := argv[k];
      }
      newargv[argc] := arg;
      argv := newargv;
      argc := argc + 1;
    }

    /** `fuse_opt_insert_arg`: append, then shift the tail up by one and drop the new argument in the gap. */
    method InsertArg(pos: nat, arg: string)
      requires Valid() && pos <= argc
      modifies this
      ensures Valid() && fresh(argv) && Contents() == old(Contents())[..pos] + [arg] + old(Contents())[pos..]
    {
      ghost var before := Contents();
      AddArg(arg);
      var last := argc - 1;
      if pos != last {
        var newarg := argv[last];
        var k := last;
        while k > pos
          invariant pos <= k <= last == argc - 1 < argv.Length - 1
          invariant argc == |before| + 1 && fresh(argv)
          invariant argv[..k] == before[..k]
          invariant argv[k + 1..argc] == before[k..]
        {
          argv[k] := argv[k - 1];
          k := k - 1;
        }
        argv[pos] := newarg;
      }
    }
  }

  /** `fuse_opt_add_opt` on the text gathered so far. */
  function Gather(opts: Option<string>, opt: string): Option<string> {
    match opts
    case None => Some(opt)
    case Some(text) => Some(text + "," + opt)
  }

  function Gathered(groups: seq<string>): Option<string> {
    if groups == [] then None else Some(Join(groups))
  }

  /** `strchr` for a comma in the C string that starts at `start`. */
  method FirstComma(buffer: array<char>, start: nat, end: nat) returns (sep: nat)
    requires start <= end < buffer.Length && buffer[end] == NUL && NUL !in buffer[start..end]
    ensures start <= sep <= end && ',' !in buffer[start..sep] && (sep == end || buffer[sep] == ',')
  {
    sep := start;
    while buffer[sep] != NUL && buffer[sep] != ','
      invariant start <= sep <= end && ',' !in buffer[start..sep]
      decreases end - sep
    {
      sep := sep + 1;
    }
    if sep < end { assert buffer[sep] in buffer[start..end]; }
  }

  function Prepend(groups: seq<string>, others: seq<string>, c: Option<Classified>): Option<Classified> {
    match c
    case None => None
    case Some(c) => Some(Classified(groups + c.groups, others + c.others))
  }

  /** `struct fuse_opt_context` */
  class Context {
    const argv: seq<string>
    var argctr: nat
    const outargs: FuseArgs
    var opts: Option<string>
    var nonopt: nat

    constructor (argv: seq<string>)
      ensures this.argv == argv && argctr == 1 && opts == None && nonopt == 0
      ensures outargs.Valid() && outargs.Contents() == [] && fresh(outargs)
    {
      this.argv := argv;
      argctr, opts, nonopt := 1, None, 0;
      outargs := new FuseArgs();
    }

    /** `call_proc` without a callback: options are gathered, other arguments are kept. */
    method CallProc(arg: string, iso: bool)
      requires outargs.Valid()
      modifies `opts, outargs
      ensures outargs.Valid()
      ensures iso ==> opts == Gather(old(opts), arg) && unchanged(outargs)
      ensures !iso ==> opts == old(opts) && fresh(outargs.argv) && outargs.Contents() == old(outargs.Contents()) + [arg]
    {
      if iso {
        opts := Gather(opts, arg);
      } else {
        outargs.AddArg(arg);
      }
    }

    /** `process_real_option_group`: cut the copy at its commas, in place, and gather every piece. */
    method ProcessRealOptionGroup(buffer: array<char>, ghost group: string)
      requires outargs.Valid()
      requires NUL !in group && buffer[..] == group + [NUL]
      modifies `opts, outargs, buffer
      ensures unchanged(outargs) && outargs.Valid() && opts == Gather(old(opts), group)
    {
      var end := buffer.Length - 1;
      var start, more := 0, true;
      while more
        invariant 0 <= start && unchanged(outargs) && end == |group| == buffer.Length - 1
        invariant more ==> start <= end && buffer[start..] == group[start..] + [NUL]
        invariant more ==> if start == 0 then opts == old(opts)
          else group[start - 1] == ',' && opts == Gather(old(opts), group[..start - 1])
        invariant !more ==> opts == Gather(old(opts), group)
        decreases more, end - start
      {
        assert buffer[start..end] == group[start..];
        var sep := FirstComma(buffer, start, end);
        more := sep < end;
        ghost var piece := group[start..sep];
        if more {
          buffer[sep] := NUL;
        }
        assert buffer[start..sep] == piece && group[..end] == group;
        if start > 0 { GatherPiece(old(opts), group, start, sep); }
        CallProc(buffer[start..sep], true);
        start := sep + 1;
      }
    }

    /** `process_option_group` */
    method ProcessOptionGroup(group: string)
      requires outargs.Valid() && NUL !in group
      modifies `opts, outargs
      ensures unchanged(outargs) && outargs.Valid() && opts == Gather(old(opts), group)
    {
      if ',' !in group {
        CallProc(group, true);
      } else {
        var copy := new char[|group| + 1](k requires 0 <= k <= |group| => if k < |group| then group[k] else NUL);
        assert copy[..] == group + [NUL];
        ProcessRealOptionGroup(copy, group);
      }
    }

    /** `process_one`: one argument, or two when a bare `-o` takes the next one as its group. */
    method ProcessOne(arg: string) returns (res: int)
      requires outargs.Valid() && forall a :: a in argv ==> NUL !in a
      requires argctr < |argv| && argv[argctr] == arg
      modifies this, outargs
      ensures outargs.Valid() && argctr == old(argctr) + if old(nonopt) == 0 && arg == "-o" && res == 0 then 1 else 0
      ensures res == if old(nonopt) == 0 && arg == "-o" && old(argctr) + 1 >= |argv| then -1 else 0
      ensures nonopt == if old(nonopt) == 0 && arg == "--" then outargs.argc else old(nonopt)
      ensures if old(nonopt) == 0 && "-o" <= arg
        then unchanged(outargs) && (res == 0 ==> opts == Gather(old(opts), if arg == "-o" then argv[argctr] else arg[2..]))
        else opts == old(opts) && fresh(outargs.argv) && outargs.Contents() == old(outargs.Contents()) + [arg]
    {
      res := 0;
      if nonopt > 0 || arg == "" || arg[0] != '-' {
        CallProc(arg, false);
      } else if |arg| > 1 && arg[1] == 'o' {
        if |arg| > 2 {
          assert forall c :: c in arg[2..] ==> c in arg;
          ProcessOptionGroup(arg[2..]);
        } else {
          if argctr + 1 >= |argv| { return -1; }
          argctr := argctr + 1;
          ProcessOptionGroup(argv[argctr]);
        }
      } else if |arg| == 2 && arg[1] == '-' {
        outargs.AddArg(arg);
        nonopt := outargs.argc;
      } else {
        CallProc(arg, false);
      }
    }

    method InsertGroup(group: string, ghost others: seq<string>)
      requires argv != [] && outargs.Valid() && outargs.Contents() == argv[..1] + others
      modifies outargs
      ensures outargs.Valid() && fresh(outargs.argv)
      ensures outargs.Contents() == [argv[0], "-o", group] + others
    {
      outargs.InsertArg(1, "-o");
      assert outargs.Contents() == [argv[0], "-o"] + others;
      outargs.InsertArg(2, group);
    }

    method DropLastIfSeparator(ghost before: seq<string>)
      requires outargs.Valid() && outargs.Contents() == before && nonopt <= |before|
      modifies outargs`argc
      ensures outargs.Valid()
      ensures outargs.Contents() == if nonopt > 0 && nonopt == |before| then before[..nonopt - 1] else before
    {
      if nonopt > 0 && nonopt == outargs.argc {
        outargs.argc := outargs.argc - 1;
      }
    }

    /** The end of `opt_parse`: the gathered group goes in front, a separator left last goes away. */
    method Emit(ghost groups: seq<string>, ghost others: seq<string>)
      requires argv != [] && outargs.Valid() && outargs.Contents() == argv[..1] + others
      requires opts == Gathered(groups)
      requires nonopt <= |others| + 1 && (EndsInSeparator(others) <==> nonopt == |others| + 1)
      modifies outargs
      ensures outargs.Valid() && (fresh(outargs.argv) || outargs.argv == old(outargs.argv))
      ensures outargs.Contents() == Assemble(argv[0], Classified(groups, others))
    {
      if opts.Some? {
        InsertGroup(opts.value, others);
        DropLastIfSeparator([argv[0], "-o", opts.value] + others);
      } else {
        DropLastIfSeparator(argv[..1] + others);
      }
    }

    /** The body of the loop of `opt_parse`. */
    method ProcessNext(ghost groups: seq<string>, ghost others: seq<string>)
      returns (res: int, ghost groups': seq<string>, ghost others': seq<string>)
      requires argctr < |argv| && forall a :: a in argv ==> NUL !in a
      requires Progress(argv, argctr, nonopt, groups, others) && opts == Gathered(groups)
      requires outargs.Valid() && outargs.Contents() == argv[..1] + others
      modifies this, outargs
      ensures outargs.Valid() && (fresh(outargs.argv) || outargs.argv == old(outargs.argv))
      ensures res == 0 || (res == -1 && Classify(argv[1..]).None?)
      ensures res == 0 ==> Progress(argv, argctr, nonopt, groups', others') && opts == Gathered(groups')
      ensures res == 0 ==> outargs.Contents() == argv[..1] + others' && argctr > old(argctr)
    {
      groups', others' := groups, others;
      var arg := argv[argctr];
      ProgressStep(argv, argctr, nonopt, groups, others);
      ghost var isGroup := nonopt == 0 && "-o" <= arg;
      res := ProcessOne(arg);
      if res == -1 { return; }
      if isGroup {
        ghost var group := if arg == "-o" then argv[argctr] else arg[2..];
        GatheredGrows(groups, group);
        groups' := groups + [group];
      } else {
        assert argv[..1] + (others + [arg]) == argv[..1] + others + [arg];
        others' := others + [arg];
      }
      argctr := argctr + 1;
    }

    /** The loop of `opt_parse`. */
    method ProcessAll() returns (res: int, ghost groups: seq<string>, ghost others: seq<string>)
      requires argv != [] && forall a :: a in argv ==> NUL !in a
      requires argctr == 1 && opts == None && nonopt == 0 && outargs.Valid() && outargs.Contents() == argv[..1]
      modifies this, outargs
      ensures outargs.Valid() && (fresh(outargs.argv) || outargs.argv == old(outargs.argv))
      ensures res == if Classify(argv[1..]).Some? then 0 else -1
      ensures res == 0 ==> && Progress(argv, |argv|, nonopt, groups, others)
                           && outargs.Contents() == argv[..1] + others && opts == Gathered(groups)
    {
      groups, others, res := [], [], 0;
      PrependNothing(Classify(argv[1..]));
      assert argv[..1] + others == argv[..1];
      while argctr < |argv|
        invariant Progress(argv, argctr, nonopt, groups, others) && res == 0
        invariant outargs.Valid() && (fresh(outargs.argv) || outargs.argv == old(outargs.argv))
        invariant outargs.Contents() == argv[..1] + others && opts == Gathered(groups)
        decreases |argv| - argctr
      {
        res, groups, others := ProcessNext(groups, others);
        if res == -1 { return; }
      }
      AllProcessed(argv, nonopt, groups, others);
    }

    /** `opt_parse` */
    method OptParse() returns (res: int)
      requires argctr == 1 && opts == None && nonopt == 0 && outargs.Valid() && outargs.Contents() == []
      requires argv != [] && forall a :: a in argv ==> NUL !in a
      modifies this, outargs
      ensures outargs.Valid() && fresh(outargs.argv)
      ensures res == if Normal(argv).Some? then 0 else -1
      ensures res == 0 ==> outargs.Contents() == Normal(argv).value
    {
      outargs.AddArg(argv[0]);
      assert [] + [argv[0]] == argv[..1];
      ghost var groups, others;
      res, groups, others := ProcessAll();
      if res == -1 { return; }
      AllProcessed(argv, nonopt, groups, others);
      SeparatorLast(others, nonopt);
      Emit(groups, others);
    }
  }

  /**
   How far the loop of `opt_parse` has come: what it gathered and kept, put in front of the
   classification of the arguments still to come, is the classification of them all.
   */
  ghost predicate Progress(args: seq<string>, done: nat, nonopt: nat, groups: seq<string>, others: seq<string>) {
    && 1 <= done <= |args|
    && (if nonopt == 0 then
          "--" !in others && Classify(args[1..]) == Prepend(groups, others, Classify(args[done..]))
        else
          && 2 <= nonopt < |others| + 2
          && others[nonopt - 2] == "--" && "--" !in others[..nonopt - 2]
          && Classify(args[1..]) == Some(Classified(groups, others + args[done..])))
  }

  lemma ProgressStep(args: seq<string>, done: nat, nonopt: nat, groups: seq<string>, others: seq<string>)
    requires Progress(args, done, nonopt, groups, others) && done < |args|
    ensures var arg := args[done];
      if nonopt == 0 && "-o" < arg then
        Progress(args, done + 1, 0, groups + [arg[2..]], others)
      else if nonopt == 0 && arg == "-o" then
        if done + 1 == |args| then Classify(args[1..]).None?
        else Progress(args, done + 2, 0, groups + [args[done + 1]], others)
      else
        Progress(args, done + 1, if nonopt == 0 && arg == "--" then |others| + 2 else nonopt, groups, others + [arg])
  {
    var rest := args[done..];
    assert rest[1..] == args[done + 1..] && others + rest == others + [rest[0]] + rest[1..];
    ClassifyStep(groups, others, rest);
    if nonopt > 0 {
      assert (others + [rest[0]])[..nonopt - 2] == others[..nonopt - 2];
    } else if rest[0] == "-o" && |rest| > 1 {
      assert rest[2..] == args[done + 2..];
    } else if rest[0] == "--" {
      assert (others + [rest[0]])[..|others|] == others;
    }
  }

  lemma AllProcessed(args: seq<string>, nonopt: nat, groups: seq<string>, others: seq<string>)
    requires Progress(args, |args|, nonopt, groups, others)
    ensures Classify(args[1..]) == Some(Classified(groups, others))
  {
    assert args[|args|..] == [] && others + [] == others && groups + [] == groups;
  }

  lemma PrependNothing(c: Option<Classified>)
    ensures Prepend([], [], c) == c
  {
    assert c.Some? ==> [] + c.value.groups == c.value.groups && [] + c.value.others == c.value.others;
  }

  /** The separator is the last argument exactly when the output is no longer than when it was added. */
  lemma SeparatorLast(others: seq<string>, nonopt: nat)
    requires if nonopt == 0 then "--" !in others
      else 2 <= nonopt < |others| + 2 && others[nonopt - 2] == "--" && "--" !in others[..nonopt - 2]
    ensures EndsInSeparator(others) <==> nonopt == |others| + 1
  {
    if 0 < nonopt < |others| + 1 {
      assert others[nonopt - 2] in others[..|others| - 1];
    }
  }

  lemma GatheredGrows(groups: seq<string>, group: string)
    ensures Gathered(groups + [group]) == Gather(Gathered(groups), group)
  {
    if groups == [] {
      assert groups + [group] == [group];
    } else {
      assert (groups + [group])[..|groups|] == groups;
    }
  }

  /** Classifying from left to right, one argument or one spelled-out group at a time. */
  lemma ClassifyStep(groups: seq<string>, others: seq<string>, rest: seq<string>)
    requires rest != []
    ensures "-o" < rest[0] ==>
      Prepend(groups, others, Classify(rest)) == Prepend(groups + [rest[0][2..]], others, Classify(rest[1..]))
    ensures rest[0] == "-o" && |rest| == 1 ==> Prepend(groups, others, Classify(rest)) == None
    ensures rest[0] == "-o" && |rest| > 1 ==>
      Prepend(groups, others, Classify(rest)) == Prepend(groups + [rest[1]], others, Classify(rest[2..]))
    ensures rest[0] == "--" ==> Prepend(groups, others, Classify(rest)) == Some(Classified(groups, others + rest))
    ensures !("-o" <= rest[0]) && rest[0] != "--" ==>
      Prepend(groups, others, Classify(rest)) == Prepend(groups, others + [rest[0]], Classify(rest[1..]))
  {
    if "-o" < rest[0] {
      if Classify(rest[1..]).Some? { PrependGroup(groups, others, rest[0][2..], Classify(rest[1..])); }
    } else if rest[0] == "-o" {
      if |rest| > 1 && Classify(rest[2..]).Some? { PrependGroup(groups, others, rest[1], Classify(rest[2..])); }
    } else if rest[0] == "--" {
      assert groups + [] == groups;
    } else if Classify(rest[1..]).Some? {
      var c := Classify(rest[1..]).value;
      assert others + ([rest[0]] + c.others) == others + [rest[0]] + c.others;
    }
  }

  lemma PrependGroup(groups: seq<string>, others: seq<string>, group: string, c: Option<Classified>)
    requires c.Some?
    ensures Prepend(groups, others, Some(c.value.(groups := [group] + c.value.groups))) == Prepend(groups + [group], others, c)
  {
    assert groups + ([group] + c.value.groups) == groups + [group] + c.value.groups;
  }

  lemma GatherPiece(opts: Option<string>, group: string, start: nat, sep: nat)
    requires 0 < start <= sep <= |group| && group[start - 1] == ','
    ensures Gather(Gather(opts, group[..start - 1]), group[start..sep]) == Gather(opts, group[..sep])
  {
    assert group[..start - 1] + "," + group[start..sep] == group[..sep];
    assert opts.Some? ==>
      opts.value + "," + group[..start - 1] + "," + group[start..sep] == opts.value + "," + (group[..start - 1] + "," + group[start..sep]);
  }

  /**
   `fuse_opt_parse`: the arguments are replaced by their normal form, or left as they were when
   the last one is a `-o` without its group.
   */
  method FuseOptParse(args: FuseArgs) returns (res: int)
    requires args.Valid() && forall a :: a in args.Contents() ==> NUL !in a
    modifies args
    ensures args.Valid()
    ensures var before := old(args.Contents());
      if before == [] then res == 0 && args.Contents() == []
      else if Normal(before).None? then res == -1 && args.Contents() == before
      else res == 0 && args.Contents() == Normal(before).value
  {
    if args.argc == 0 { return 0; }
    var ctx := new Context(args.Contents());
    res := ctx.OptParse();
    if res != -1 {
      args.argv, args.argc := ctx.outargs.argv, ctx.outargs.argc;
    }
  }

  /** The parser looks at argument `k` by itself: not as the group of a `-o`, nor past a separator. */
  predicate Examined(args: seq<string>, k: nat)
    requires k <= |args|
  {
    || k == 0
    || (Examined(args, k - 1) && args[k - 1] !in ["-o", "--"])
    || (k > 1 && Examined(args, k - 2) && args[k - 2] == "-o")
  }

  lemma {:induction false} OutcomeFrom(args: seq<string>, k: nat)
    requires k <= |args| && Examined(args, k)
    ensures Classify(args).None? <==> Classify(args[k..]).None?
  {
    if k == 0 {
      assert args[0..] == args;
    } else if Examined(args, k - 1) && args[k - 1] !in ["-o", "--"] {
      OutcomeFrom(args, k - 1);
      assert args[k - 1..][1..] == args[k..];
    } else {
      OutcomeFrom(args, k - 2);
      assert args[k - 2..][2..] == args[k..];
    }
  }

  lemma {:induction false} FailureIsLast(args: seq<string>, k: nat)
    requires k <= |args| && Examined(args, k) && Classify(args[k..]).None?
    ensures args != [] && Examined(args, |args| - 1) && args[|args| - 1] == "-o"
    decreases |args| - k
  {
    var rest := args[k..];
    if rest[0] == "-o" && |rest| > 1 {
      assert rest[2..] == args[k + 2..];
      FailureIsLast(args, k + 2);
    } else if rest[0] != "-o" {
      assert rest[1..] == args[k + 1..];
      FailureIsLast(args, k + 1);
    }
  }

  /** Parsing fails exactly when the last argument is a `-o` that still lacks its group. */
  lemma FailsIffBareOptionLast(args: seq<string>)
    ensures Classify(args).None? <==> args != [] && Examined(args, |args| - 1) && args[|args| - 1] == "-o"
  {
    if Classify(args).None? {
      assert args[0..] == args;
      FailureIsLast(args, 0);
    } else if args != [] && Examined(args, |args| - 1) {
      OutcomeFrom(args, |args| - 1);
    }
  }

  /** The option group of the result is the comma pieces of every group, in the order of the input. */
  lemma NormalGathersPieces(args: seq<string>)
    requires args != [] && Normal(args).Some? && Classify(args[1..]).value.groups != []
    ensures var c := Classify(args[1..]).value;
      && Normal(args).value == [args[0], "-o", Join(Pieces(c.groups))] + c.others
      && forall piece :: piece in Pieces(c.groups) ==> ',' !in piece
  {
    JoinPieces(Classify(args[1..]).value.groups);
    PiecesAreWhole(Classify(args[1..]).value.groups);
  }

  // ----- the normal form, written out -----

  /** Arguments that are neither option groups nor the separator. */
  predicate PlainArguments(args: seq<string>) {
    forall k :: 0 <= k < |args| ==> !("-o" <= args[k]) && args[k] != "--"
  }

  lemma {:induction false} PlainThenSeparator(args: seq<string>, rest: seq<string>)
    requires PlainArguments(args)
    ensures NoGroups(args) && "--" !in args
    ensures NoGroups(args + ["--"] + rest)
  {
    if args == [] {
      assert args + ["--"] + rest == ["--"] + rest;
    } else {
      PlainThenSeparator(args[1..], rest);
      assert (args + ["--"] + rest)[1..] == args[1..] + ["--"] + rest;
      assert args == [args[0]] + args[1..];
    }
  }

  lemma SeparatorAtEnd(args: seq<string>, rest: seq<string>)
    requires PlainArguments(args)
    ensures EndsInSeparator(args + ["--"] + rest) <==> rest == []
  {
    PlainThenSeparator(args, rest);
    var all := args + ["--"] + rest;
    if rest == [] {
      assert all[..|all| - 1] == args;
    } else {
      assert all[..|all| - 1][|args|] == "--";
    }
  }

  /** Without an option group a separator goes if nothing follows it, and stays if something does. */
  lemma SeparatorWithoutGroup(program: string, args: seq<string>, rest: seq<string>)
    requires PlainArguments(args)
    ensures Normal([program] + args) == Some([program] + args)
    ensures Normal([program] + (args + ["--"] + rest)) ==
      Some(if rest == [] then [program] + args else [program] + (args + ["--"] + rest))
  {
    PlainThenSeparator(args, rest);
    SeparatorAtEnd(args, rest);
    NormalOfOthers(program, args);
    NormalOfOthers(program, args + ["--"] + rest);
    var all := args + ["--"] + rest;
    assert rest == [] ==> all[..|all| - 1] == args;
    assert args != [] ==> args[|args| - 1] in args;
  }

  lemma NormalOfOthers(program: string, others: seq<string>)
    requires NoGroups(others)
    ensures Normal([program] + others) == Some(Assemble(program, Classified([], others)))
  {
    NoGroupsKept(others);
    assert ([program] + others)[1..] == others;
  }

  /** With an option group a separator stays, and the group goes in front of everything else. */
  lemma SeparatorWithGroup(program: string, group: string, args: seq<string>, rest: seq<string>)
    requires PlainArguments(args)
    ensures Normal([program, "-o", group] + (args + ["--"] + rest)) == Some([program, "-o", group] + (args + ["--"] + rest))
  {
    PlainThenSeparator(args, rest);
    GroupedIsNormal(program, group, args + ["--"] + rest);
  }

  /** Groups from all over the command line become one, joined by commas, whichever way they are written. */
  lemma GroupsAreJoined(program: string, g: string, h: string, x: string)
    requires g != "" && PlainArguments([x])
    ensures Normal([program, x, "-o" + g, "-o", h]) == Some([program, "-o", g + "," + h, x])
  {
    var args := [x, "-o" + g, "-o", h];
    assert [program, x, "-o" + g, "-o", h][1..] == args;
    assert args[0] == x && args[1..] == ["-o" + g, "-o", h];
    assert "-o" < "-o" + g && ("-o" + g)[2..] == g;
    assert args[1..][1..] == ["-o", h];
    var none: seq<string> := [];
    assert ["-o", h][2..] == none && [h] + none == [h] && [x] + none == [x] && [g] + [h] == [g, h];
    assert Classify(none) == Some(Classified(none, none));
    var last := ["-o", h];
    assert last[0] == "-o" && last[1] == h && |last| == 2;
    assert Classify(last) == Some(Classified([h], none));
    assert Classify(args[1..]) == Some(Classified([g, h], none));
    assert Classify(args) == Some(Classified([g, h], [x]));
    assert [g, h][..1] == [g] && Join([g]) == g && Join([g, h]) == g + "," + h;
    assert [program, "-o", g + "," + h] + [x] == [program, "-o", g + "," + h, x];
  }
}
