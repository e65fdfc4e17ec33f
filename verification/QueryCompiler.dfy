/**
 `tagsistant_querytree_parse_store` (src/path_resolution.c:537-756): a loop over the tokens that
 grows the query tree at its end, and the grammar whose queries it rebuilds.
 */
module QueryCompiler {
  import opened Schema
  import opened QueryGrammar

  datatype Leaf = Leaf(word: Word, id: TagId, negate: bool)

  /** An entry of a `related` chain, with the nodes the reasoner hangs off its `negated` field. */
  datatype Linked = Linked(leaf: Leaf, excluded: seq<Leaf>)

  /** An entry of a `negated` chain, with its own `related` chain. */
  datatype Barred = Barred(leaf: Leaf, related: seq<Linked>)

  /** A node of the spine of an AND set. */
  datatype Node = Node(leaf: Leaf, related: seq<Linked>, negated: seq<Barred>)

  /** What the reasoner appends to a fresh node: a related chain, and tags it excludes. */
  datatype Reasoned = Reasoned(related: seq<Linked>, excluded: seq<Leaf>)

  /** What the parser asks others for: tag ids, and the reasoner (which `@@` disables). */
  datatype Services = Services(ids: Word -> TagId, reasoner: Leaf -> Reasoned) {

    /** The reasoner is asked about flat tags and complete triple tags only. */
    function Reason(leaf: Leaf): Reasoned {
      if leaf.word.Flat? || (leaf.word.key.Some? && leaf.word.value.Some?) then reasoner(leaf) else Reasoned([], [])
    }

    function LeafOf(w: Word, negate: bool): Leaf {
      Leaf(w, ids(w), negate)
    }

    function SpineNode(w: Word): Node {
      var r := Reason(LeafOf(w, false));
      Node(LeafOf(w, false), r.related, Bars(r.excluded))
    }

    /** What a further member of a group adds to the chain of the group's first member. */
    function MemberChain(w: Word): seq<Linked> {
      var r := Reason(LeafOf(w, false));
      [Linked(LeafOf(w, false), r.excluded)] + r.related
    }

    /** What a negated tag adds to the negated chain of the last spine node. */
    function BarChain(w: Word): seq<Barred> {
      var r := Reason(LeafOf(w, true));
      [Barred(LeafOf(w, true), r.related)] + Bars(r.excluded)
    }
  }

  function Bars(leaves: seq<Leaf>): (bars: seq<Barred>)
    ensures |bars| == |leaves|
  {
    seq(|leaves|, k requires 0 <= k < |leaves| => Barred(leaves[k], []))
  }

  datatype Error = DoubleNegation | NegationInsideGroup | NestedGroup | CloseWithoutOpen | NegationFirst

  /** `TAGSISTANT_TAG_GROUP_DONT_ADD`, `.._ADD_NEW_NODE` and `.._ADD_TO_NODE`. */
  datatype Mode = Outside | GroupOpened | InGroup

  /** How a stretch of the loop ends; `NullNode` is the null pointer it follows on some malformed queries. */
  datatype Outcome = Parsed(state: State) | Failed(error: Error) | NullNode

  function WithLast(nodes: seq<Node>, node: Node): seq<Node>
    requires nodes != []
  {
    nodes[|nodes| - 1 := node]
  }

  /** The variables of the loop: the finished OR entries, the AND set being built, and two flags. */
  datatype State = State(done: seq<seq<Node>>, nodes: seq<Node>, negateNext: bool, mode: Mode) {

    /** `qtree->tree` */
    function Tree(): seq<seq<Node>> {
      done + [nodes]
    }

    /** A tag, which goes to the negated chain, to the related chain or onto the spine. */
    function Add(w: Word, s: Services): Outcome {
      var mode' := if mode.GroupOpened? then InGroup else mode;
      if negateNext then
        if nodes == [] then Failed(NegationFirst)
        else
          var last := nodes[|nodes| - 1];
          Parsed(State(done, WithLast(nodes, last.(negated := last.negated + s.BarChain(w))), false, mode'))
      else if mode.InGroup? then
        if nodes == [] then NullNode
        else
          var last := nodes[|nodes| - 1];
          Parsed(this.(nodes := WithLast(nodes, last.(related := last.related + s.MemberChain(w)))))
      else
        Parsed(this.(nodes := nodes + [s.SpineNode(w)], mode := mode'))
    }

    /** One turn of the loop. */
    function Step(t: Token, s: Services): Outcome {
      match t
      case Blank => Parsed(this)
      case Minus =>
        if negateNext then Failed(DoubleNegation)
        else if !mode.Outside? then Failed(NegationInsideGroup)
        else Parsed(this.(negateNext := true))
      case Plus => Parsed(this.(done := done + [nodes], nodes := []))
      case Open => if !mode.Outside? then Failed(NestedGroup) else Parsed(this.(mode := GroupOpened))
      case Close => if mode.Outside? then Failed(CloseWithoutOpen) else Parsed(this.(mode := Outside))
      case Tag(w) => Add(w, s)
    }
  }

  const START := State([], [], false, Outside)

  /** The loop over a list of tokens. */
  function Run(state: State, tokens: seq<Token>, s: Services): Outcome
    decreases |tokens|
  {
    if tokens == [] then Parsed(state)
    else
      var next := state.Step(tokens[0], s);
      if next.Parsed? then Run(next.state, tokens[1..], s) else next
  }

  lemma {:induction false} RunAppend(state: State, a: seq<Token>, b: seq<Token>, s: Services)
    ensures Run(state, a + b, s) == if Run(state, a, s).Parsed? then Run(Run(state, a, s).state, b, s) else Run(state, a, s)
    decreases |a|
  {
    if a == [] {
      assert a + b == b;
    } else {
      assert (a + b)[1..] == a[1..] + b;
      if state.Step(a[0], s).Parsed? {
        RunAppend(state.Step(a[0], s).state, a[1..], b, s);
      }
    }
  }

  // ----- what the tokens say by themselves -----

  /** A group is open before token `k`. */
  predicate GroupOpenAt(tokens: seq<Token>, k: nat)
    requires k <= |tokens|
  {
    k > 0 && (tokens[k - 1].Open? || (!tokens[k - 1].Close? && GroupOpenAt(tokens, k - 1)))
  }

  /** A tag stands between token `k` and the brace before it. */
  predicate MemberBefore(tokens: seq<Token>, k: nat)
    requires k <= |tokens|
  {
    k > 0 && (tokens[k - 1].Tag? || (!tokens[k - 1].Open? && MemberBefore(tokens, k - 1)))
  }

  /** A minus before token `k` still waits for its tag. */
  predicate PendingAt(tokens: seq<Token>, k: nat)
    requires k <= |tokens|
  {
    k > 0 && (tokens[k - 1].Minus? || (!tokens[k - 1].Tag? && PendingAt(tokens, k - 1)))
  }

  /** No tag stands between token `k` and the plus, or the beginning, before it. */
  predicate NoTagAt(tokens: seq<Token>, k: nat)
    requires k <= |tokens|
  {
    k == 0 || tokens[k - 1].Plus? || (!tokens[k - 1].Tag? && NoTagAt(tokens, k - 1))
  }

  /** What token `k` does wrong, judged from the tokens before it; None when nothing. */
  function Offence(tokens: seq<Token>, k: nat): Option<Outcome>
    requires k < |tokens|
  {
    match tokens[k]
    case Minus =>
      if PendingAt(tokens, k) then Some(Failed(DoubleNegation))
      else if GroupOpenAt(tokens, k) then Some(Failed(NegationInsideGroup))
      else None
    case Open => if GroupOpenAt(tokens, k) then Some(Failed(NestedGroup)) else None
    case Close => if GroupOpenAt(tokens, k) then None else Some(Failed(CloseWithoutOpen))
    case Tag(_) =>
      if !NoTagAt(tokens, k) then None
      else if PendingAt(tokens, k) then Some(Failed(NegationFirst))
      else if GroupOpenAt(tokens, k) && MemberBefore(tokens, k) then Some(NullNode)
      else None
    case _ => None
  }

  /** How the variables of the loop follow from the tokens consumed. */
  ghost predicate Tracks(state: State, tokens: seq<Token>, k: nat)
    requires k <= |tokens|
  {
    && (state.negateNext <==> PendingAt(tokens, k))
    && (!state.mode.Outside? <==> GroupOpenAt(tokens, k))
    && (state.mode.InGroup? <==> GroupOpenAt(tokens, k) && MemberBefore(tokens, k))
    && (state.nodes == [] <==> NoTagAt(tokens, k))
  }

  lemma StepTracks(state: State, tokens: seq<Token>, k: nat, s: Services)
    requires k < |tokens| && Tracks(state, tokens, k)
    ensures var next := state.Step(tokens[k], s);
      if next.Parsed? then Offence(tokens, k) == None && Tracks(next.state, tokens, k + 1) else Offence(tokens, k) == Some(next)
  {
  }

  /** The loop stops at the first offending token, with what is wrong there; without one it succeeds. */
  lemma {:induction false} StopsAtFirstOffence(state: State, tokens: seq<Token>, k: nat, s: Services)
    requires k <= |tokens| && Tracks(state, tokens, k)
    ensures var out := Run(state, tokens[k..], s);
      if out.Parsed? then forall j :: k <= j < |tokens| ==> Offence(tokens, j) == None
      else exists j :: k <= j < |tokens| && Offence(tokens, j) == Some(out) && forall i :: k <= i < j ==> Offence(tokens, i) == None
    decreases |tokens| - k
  {
    if k < |tokens| {
      assert tokens[k..][0] == tokens[k] && tokens[k..][1..] == tokens[k + 1..];
      StepTracks(state, tokens, k, s);
      if state.Step(tokens[k], s).Parsed? {
        StopsAtFirstOffence(state.Step(tokens[k], s).state, tokens, k + 1, s);
      }
    }
  }

  /** Some token makes the loop follow a null pointer, and nothing before it is refused. */
  ghost predicate Crashes(tokens: seq<Token>) {
    exists k :: CrashesAt(tokens, k)
  }

  ghost predicate CrashesAt(tokens: seq<Token>, k: nat) {
    k < |tokens| && Offence(tokens, k) == Some(NullNode) && forall i :: 0 <= i < k ==> Offence(tokens, i) == None
  }

  /** The token sequences on which the loop crashes. */
  lemma NullNodeIff(tokens: seq<Token>, s: Services)
    ensures Run(START, tokens, s) == NullNode <==> Crashes(tokens)
  {
    StopsAtFirstOffence(START, tokens, 0, s);
    assert tokens[0..] == tokens;
    if Run(START, tokens, s) == NullNode {
      var k: nat :| k < |tokens| && Offence(tokens, k) == Some(NullNode) && forall i :: 0 <= i < k ==> Offence(tokens, i) == None;
      assert CrashesAt(tokens, k);
    }
    if Crashes(tokens) {
      var k: nat :| CrashesAt(tokens, k);
      assert Offence(tokens, k) == Some(NullNode);
    }
  }

  /** The tokens of `{/a/+/b`: a plus inside an open group, between two of its tags. */
  function PlusInGroup(a: string, b: string): seq<Token> {
    [Open, Tag(Flat(a)), Plus, Tag(Flat(b))]
  }

  /** The shortest path that crashes the loop. */
  lemma PlusInGroupCrashes(a: string, b: string, delimiter: string, rest: seq<string>)
    requires Writable(Flat(a)) && Writable(Flat(b)) && IsDelimiter(delimiter)
    ensures AllWritable(PlusInGroup(a, b))
    ensures Crashes(Tokens(WriteTokens(PlusInGroup(a, b)) + [delimiter] + rest))
  {
    var tokens := PlusInGroup(a, b);
    TokensOfWritten(tokens, delimiter, rest);
    assert GroupOpenAt(tokens, 1) && GroupOpenAt(tokens, 2) && GroupOpenAt(tokens, 3);
    assert MemberBefore(tokens, 2) && MemberBefore(tokens, 3) && NoTagAt(tokens, 3) && NoTagAt(tokens, 1);
    assert !PendingAt(tokens, 0) && !PendingAt(tokens, 1) && !PendingAt(tokens, 2) && !PendingAt(tokens, 3);
    assert CrashesAt(tokens, 3);
  }

  /** A plus with no tag between it and the plus, or the beginning, before it. */
  ghost predicate BarePlus(tokens: seq<Token>, from: nat) {
    exists k :: from <= k < |tokens| && tokens[k].Plus? && NoTagAt(tokens, k)
  }

  lemma {:induction false} EmptyEntriesFrom(state: State, tokens: seq<Token>, k: nat, s: Services)
    requires k <= |tokens| && Tracks(state, tokens, k) && Run(state, tokens[k..], s).Parsed?
    ensures [] in Run(state, tokens[k..], s).state.Tree() <==>
      [] in state.done || BarePlus(tokens, k) || NoTagAt(tokens, |tokens|)
    decreases |tokens| - k
  {
    if k < |tokens| {
      assert tokens[k..][0] == tokens[k] && tokens[k..][1..] == tokens[k + 1..];
      StepTracks(state, tokens, k, s);
      var next := state.Step(tokens[k], s).state;
      EmptyEntriesFrom(next, tokens, k + 1, s);
      assert BarePlus(tokens, k) <==> (tokens[k].Plus? && NoTagAt(tokens, k)) || BarePlus(tokens, k + 1);
    }
  }

  /**
   The paths that leave an OR entry without tags, whose first node the evaluator looks at all the same
   (src/path_resolution.c:362): those with a plus that has no tag before it, or none after it.
   */
  lemma EmptyEntryIff(tokens: seq<Token>, s: Services)
    requires Run(START, tokens, s).Parsed?
    ensures [] in Run(START, tokens, s).state.Tree() <==> BarePlus(tokens, 0) || NoTagAt(tokens, |tokens|)
  {
    assert tokens[0..] == tokens;
    EmptyEntriesFrom(START, tokens, 0, s);
  }

  // ----- the tree a query stands for -----

  function Members(words: seq<Word>, s: Services): seq<Linked> {
    if words == [] then [] else s.MemberChain(words[0]) + Members(words[1..], s)
  }

  function GroupNode(words: seq<Word>, s: Services): Node
    requires words != []
  {
    var head := s.SpineNode(words[0]);
    head.(related := head.related + Members(words[1..], s))
  }

  /** A tag or a group makes a spine node; a negated tag hangs off the one before it. */
  function CompileItem(nodes: seq<Node>, item: Item, s: Services): seq<Node> {
    match item
    case One(w) => nodes + [s.SpineNode(w)]
    case Group(ws) => if ws == [] then nodes else nodes + [GroupNode(ws, s)]
    case Not(w) =>
      if nodes == [] then nodes
      else
        var last := nodes[|nodes| - 1];
        WithLast(nodes, last.(negated := last.negated + s.BarChain(w)))
  }

  function CompileItems(nodes: seq<Node>, items: seq<Item>, s: Services): seq<Node>
    decreases |items|
  {
    if items == [] then nodes else CompileItems(CompileItem(nodes, items[0], s), items[1..], s)
  }

  function Compile(query: seq<seq<Item>>, s: Services): (tree: seq<seq<Node>>)
    ensures |tree| == |query| && forall k :: 0 <= k < |query| ==> tree[k] == CompileItems([], query[k], s)
  {
    if query == [] then [] else [CompileItems([], query[0], s)] + Compile(query[1..], s)
  }

  // ----- written queries are rebuilt -----

  lemma {:induction false} RunMembers(state: State, words: seq<Word>, s: Services)
    requires state.mode.InGroup? && !state.negateNext && state.nodes != []
    ensures var last := state.nodes[|state.nodes| - 1];
      Run(state, WordTokens(words), s)
        == Parsed(state.(nodes := WithLast(state.nodes, last.(related := last.related + Members(words, s)))))
    decreases |words|
  {
    var nodes, last := state.nodes, state.nodes[|state.nodes| - 1];
    if words == [] {
      assert last.related + [] == last.related && WithLast(nodes, last) == nodes;
    } else {
      var longer := last.(related := last.related + s.MemberChain(words[0]));
      RunMembers(state.(nodes := WithLast(nodes, longer)), words[1..], s);
      assert longer.related + Members(words[1..], s) == last.related + Members(words, s);
    }
  }

  lemma RunGroup(state: State, words: seq<Word>, s: Services)
    requires state.mode.Outside? && !state.negateNext && words != []
    ensures Run(state, ItemTokens(Group(words)), s) == Parsed(state.(nodes := state.nodes + [GroupNode(words, s)]))
  {
    var head := s.SpineNode(words[0]);
    var inside := state.(nodes := state.nodes + [head], mode := InGroup);
    var tail := WordTokens(words[1..]);
    assert ItemTokens(Group(words)) == [Open, Tag(words[0])] + (tail + [Close]);
    RunAppend(state, [Open, Tag(words[0])], tail + [Close], s);
    RunAppend(inside, tail, [Close], s);
    RunMembers(inside, words[1..], s);
    assert WithLast(state.nodes + [head], GroupNode(words, s)) == state.nodes + [GroupNode(words, s)];
  }

  lemma RunItem(state: State, item: Item, s: Services)
    requires state.mode.Outside? && !state.negateNext && WritableItem(item) && (item.Not? ==> state.nodes != [])
    ensures Run(state, ItemTokens(item), s) == Parsed(state.(nodes := CompileItem(state.nodes, item, s)))
  {
    match item
    case One(w) =>
    case Group(ws) => RunGroup(state, ws, s);
    case Not(w) =>
      assert [Minus, Tag(w)] == [Minus] + [Tag(w)];
      RunAppend(state, [Minus], [Tag(w)], s);
  }

  lemma {:induction false} RunItems(state: State, items: seq<Item>, s: Services)
    requires state.mode.Outside? && !state.negateNext && forall k :: 0 <= k < |items| ==> WritableItem(items[k])
    requires items != [] && items[0].Not? ==> state.nodes != []
    ensures Run(state, AndTokens(items), s) == Parsed(state.(nodes := CompileItems(state.nodes, items, s)))
    decreases |items|
  {
    if items != [] {
      RunItem(state, items[0], s);
      RunAppend(state, ItemTokens(items[0]), AndTokens(items[1..]), s);
      RunItems(state.(nodes := CompileItem(state.nodes, items[0], s)), items[1..], s);
    }
  }

  /** Where the loop ends on the tokens of a query. */
  function Final(done: seq<seq<Node>>, query: seq<seq<Item>>, s: Services): State
    requires query != []
    decreases |query|
  {
    var first := CompileItems([], query[0], s);
    if |query| == 1 then State(done, first, false, Outside) else Final(done + [first], query[1..], s)
  }

  lemma {:induction false} FinalTree(done: seq<seq<Node>>, query: seq<seq<Item>>, s: Services)
    requires query != []
    ensures Final(done, query, s).Tree() == done + Compile(query, s)
    ensures !Final(done, query, s).negateNext && Final(done, query, s).mode.Outside?
    decreases |query|
  {
    var first, rest := CompileItems([], query[0], s), Compile(query[1..], s);
    Regroup(done, [first], rest);
    if |query| > 1 {
      FinalTree(done + [first], query[1..], s);
    }
  }

  lemma {:induction false} RunQuery(done: seq<seq<Node>>, query: seq<seq<Item>>, s: Services)
    requires Proper(query)
    ensures Run(State(done, [], false, Outside), QueryTokens(query), s) == Parsed(Final(done, query, s))
    decreases |query|
  {
    if |query| > 1 {
      RunFirst(done, query[0], QueryTokens(query[1..]), s);
      RunQuery(done + [CompileItems([], query[0], s)], query[1..], s);
    } else {
      RunItems(State(done, [], false, Outside), query[0], s);
    }
  }

  lemma RunFirst(done: seq<seq<Node>>, items: seq<Item>, rest: seq<Token>, s: Services)
    requires ProperAnd(items)
    ensures Run(State(done, [], false, Outside), AndTokens(items) + [Plus] + rest, s)
      == Run(State(done + [CompileItems([], items, s)], [], false, Outside), rest, s)
  {
    var state := State(done, [], false, Outside);
    RunItems(state, items, s);
    RunAppend(state, AndTokens(items), [Plus], s);
    RunAppend(state, AndTokens(items) + [Plus], rest, s);
  }

  /** Parsing the tokens of a query rebuilds exactly the query, with nothing left open or pending. */
  lemma ParseInvertsWriting(query: seq<seq<Item>>, s: Services)
    requires Proper(query)
    ensures var out := Run(START, QueryTokens(query), s);
      out.Parsed? && out.state.mode.Outside? && !out.state.negateNext && out.state.Tree() == Compile(query, s)
  {
    RunQuery([], query, s);
    FinalTree([], query, s);
    assert [] + Compile(query, s) == Compile(query, s);
  }

  /** The same for a whole path: the query, a delimiter, and whatever names the object. */
  lemma ParseWrittenPath(query: seq<seq<Item>>, delimiter: string, rest: seq<string>, s: Services)
    requires Proper(query) && IsDelimiter(delimiter)
    ensures AllWritable(QueryTokens(query))
    ensures var path := WriteTokens(QueryTokens(query)) + [delimiter] + rest;
      var out := Run(START, Tokens(path), s);
      && out.Parsed? && !out.state.negateNext && out.state.Tree() == Compile(query, s)
      && QueryLength(path) < |path| && path[QueryLength(path) + 1..] == rest
  {
    QueryTokensWritable(query);
    TokensOfWritten(QueryTokens(query), delimiter, rest);
    ParseInvertsWriting(query, s);
  }

  /** One OR entry per plus, and one more. */
  lemma {:induction false} OrEntries(state: State, tokens: seq<Token>, s: Services)
    requires Run(state, tokens, s).Parsed?
    ensures |Run(state, tokens, s).state.Tree()| == |state.Tree()| + multiset(tokens)[Plus]
    decreases |tokens|
  {
    if tokens != [] {
      assert tokens == [tokens[0]] + tokens[1..];
      OrEntries(state.Step(tokens[0], s).state, tokens[1..], s);
    }
  }

  /** No node of a spine is negated, whatever was parsed. */
  lemma {:induction false} SpineIsPositive(state: State, tokens: seq<Token>, s: Services)
    requires Run(state, tokens, s).Parsed?
    requires forall ands, node :: ands in state.Tree() && node in ands ==> !node.leaf.negate
    ensures forall ands, node :: ands in Run(state, tokens, s).state.Tree() && node in ands ==> !node.leaf.negate
    decreases |tokens|
  {
    if tokens != [] {
      var next := state.Step(tokens[0], s).state;
      forall ands, node | ands in next.Tree() && node in ands ensures !node.leaf.negate {
        assert state.nodes in state.Tree();
        assert state.nodes != [] ==> state.nodes[|state.nodes| - 1] in state.nodes;
        assert ands in state.Tree() || ands == next.nodes;
      }
      SpineIsPositive(next, tokens[1..], s);
    }
  }

  // ----- the code -----

  /**
   What the parser notes in the query tree besides the nodes: namespace, key and value of the last triple
   tag, the last operator that it knew, and whether names need inodes.
   */
  datatype Noted = Noted(
    namespace: Option<string>, key: Option<string>, value: Option<string>, operator: Operator, forceInode: bool)

  const UNNOTED := Noted(None, None, None, NoOperator, false)

  function Note(noted: Noted, tokens: seq<Token>): Noted
    decreases |tokens|
  {
    if tokens == [] then noted
    else
      var t := tokens[0];
      Note(if t.Tag? && t.word.Triple?
             then Noted(Some(t.word.namespace), t.word.key, t.word.value,
                        if t.word.operator == NoOperator then noted.operator else t.word.operator,
                        noted.forceInode || t.word.operator !in [NoOperator, EqualTo])
             else noted,
           tokens[1..])
  }

  // ----- triple tags, written out -----

  lemma OperatorsAre(text: string)
    ensures OperatorOf("eq") == EqualTo && OperatorOf("inc") == Contains
    ensures OperatorOf("gt") == GreaterThan && OperatorOf("lt") == SmallerThan
    ensures text !in ["eq", "inc", "gt", "lt"] ==> OperatorOf(text) == NoOperator
  {
  }

  /** The path is one tag, and nothing is left open. */
  ghost predicate ReadsAs(path: seq<string>, node: Node, s: Services) {
    Run(START, Tokens(path), s) == Parsed(State([], [node], false, Outside))
  }

  /**
   A triple tag that ends the path has the components that the path gives, and no others; without key and
   value the reasoner is not asked.
   */
  lemma PartialTriplesRead(ns: string, k: string, o: string, s: Services)
    requires IsNamespace(ns) && ns[0] != '@'
    ensures var w := Triple(ns, None, NoOperator, None); ReadsAs([ns], Node(Leaf(w, s.ids(w), false), [], []), s)
    ensures var w := Triple(ns, Some(k), NoOperator, None); ReadsAs([ns, k], Node(Leaf(w, s.ids(w), false), [], []), s)
    ensures var w := Triple(ns, Some(k), OperatorOf(o), None); ReadsAs([ns, k, o], Node(Leaf(w, s.ids(w), false), [], []), s)
  {
    ReadsOne([ns], Triple(ns, None, NoOperator, None), s);
    ReadsOne([ns, k], Triple(ns, Some(k), NoOperator, None), s);
    ReadsOne([ns, k, o], Triple(ns, Some(k), OperatorOf(o), None), s);
  }

  /** A complete triple tag, with what the reasoner replies; an operator that is none of the four is dropped. */
  lemma CompleteTripleReads(ns: string, k: string, o: string, v: string, s: Services)
    requires IsNamespace(ns) && ns[0] != '@'
    ensures var w := Triple(ns, Some(k), OperatorOf(o), Some(v));
      var leaf := Leaf(w, s.ids(w), false);
      ReadsAs([ns, k, o, v], Node(leaf, s.reasoner(leaf).related, Bars(s.reasoner(leaf).excluded)), s)
  {
    ReadsOne([ns, k, o, v], Triple(ns, Some(k), OperatorOf(o), Some(v)), s);
  }

  lemma ReadsOne(path: seq<string>, w: Word, s: Services)
    requires 0 < |path| <= 4 && !IsDelimiter(path[0]) && Head(path) == Tag(w) && w.Triple?
    ensures Tokens(path) == [Tag(w)] && ReadsAs(path, s.SpineNode(w), s)
  {
    assert path[Width(path)..] == [] && Tokens([]) == [];
    assert Tokens(path) == [Tag(w)] && [Tag(w)][1..] == [];
    assert [] + [s.SpineNode(w)] == [s.SpineNode(w)];
    assert Run(START, [Tag(w)], s) == Run(START.Step(Tag(w), s).state, [], s);
  }

  /** The notes after a triple tag that ends the path early: its namespace and key, as far as they go. */
  lemma PartialTripleNoted(noted: Noted, ns: string, k: string)
    requires IsNamespace(ns) && ns[0] != '@'
    ensures Note(noted, Tokens([ns])) == Noted(Some(ns), None, None, noted.operator, noted.forceInode)
    ensures Note(noted, Tokens([ns, k])) == Noted(Some(ns), Some(k), None, noted.operator, noted.forceInode)
  {
    TokensOfTriple([ns]);
    TokensOfTriple([ns, k]);
    NotedOne(noted, Triple(ns, None, NoOperator, None));
    NotedOne(noted, Triple(ns, Some(k), NoOperator, None));
  }

  /** An operator that is none of the four leaves the noted one, and all but `eq` make names need inodes. */
  lemma TripleNoted(noted: Noted, ns: string, k: string, o: string, v: string)
    requires IsNamespace(ns) && ns[0] != '@'
    ensures var operator := if o in ["eq", "inc", "gt", "lt"] then OperatorOf(o) else noted.operator;
      var forceInode := noted.forceInode || o in ["inc", "gt", "lt"];
      && Note(noted, Tokens([ns, k, o])) == Noted(Some(ns), Some(k), None, operator, forceInode)
      && Note(noted, Tokens([ns, k, o, v])) == Noted(Some(ns), Some(k), Some(v), operator, forceInode)
  {
    TokensOfTriple([ns, k, o]);
    TokensOfTriple([ns, k, o, v]);
    NotedOne(noted, Triple(ns, Some(k), OperatorOf(o), None));
    NotedOne(noted, Triple(ns, Some(k), OperatorOf(o), Some(v)));
    OperatorsAre(o);
  }

  lemma TokensOfTriple(path: seq<string>)
    requires 0 < |path| <= 4 && IsNamespace(path[0]) && path[0][0] != '@'
    ensures Tokens(path) == [Head(path)]
  {
    assert path[Width(path)..] == [] && Tokens([]) == [];
  }

  lemma NotedOne(noted: Noted, w: Word)
    requires w.Triple?
    ensures Note(noted, [Tag(w)]) == Noted(Some(w.namespace), w.key, w.value,
      if w.operator == NoOperator then noted.operator else w.operator,
      noted.forceInode || w.operator in {Contains, GreaterThan, SmallerThan})
  {
    assert [Tag(w)][1..] == [];
  }

  // ----- the chains, written out -----

  /** A group of two: what the reasoner found for the first, then the second, then what it found for that. */
  lemma GroupOfTwo(c: Word, d: Word, s: Services)
    ensures var lc, ld := Leaf(c, s.ids(c), false), Leaf(d, s.ids(d), false);
      var rc, rd := s.Reason(lc), s.Reason(ld);
      Run(START, [Open, Tag(c), Tag(d), Close], s) == Parsed(State([],
        [Node(lc, rc.related + ([Linked(ld, rd.excluded)] + rd.related), Bars(rc.excluded))], false, Outside))
  {
    var tokens := [Open, Tag(c), Tag(d), Close];
    assert tokens[1..] == [Tag(c), Tag(d), Close] && tokens[1..][1..] == [Tag(d), Close];
    assert tokens[1..][1..][1..] == [Close] && [Close][1..] == [];
    var node := s.SpineNode(c);
    var longer := node.(related := node.related + s.MemberChain(d));
    var begun, one, two := START.(mode := GroupOpened), State([], [node], false, InGroup), State([], [longer], false, InGroup);
    assert [] + [node] == [node] && WithLast([node], longer) == [longer];
    assert START.Step(Open, s) == Parsed(begun) && begun.Step(Tag(c), s) == Parsed(one);
    assert one.Step(Tag(d), s) == Parsed(two) && two.Step(Close, s) == Parsed(two.(mode := Outside));
    assert Run(two, [Close], s) == Run(two.(mode := Outside), [], s);
    assert Run(one, [Tag(d), Close], s) == Run(two, [Close], s);
    assert Run(START, tokens, s) == Run(begun, tokens[1..], s) == Run(one, [Tag(d), Close], s);
  }

  lemma NegatedOnce(node: Node, w: Word, rest: seq<Token>, s: Services)
    ensures var barred := node.(negated := node.negated + s.BarChain(w));
      Run(State([], [node], false, Outside), [Minus, Tag(w)] + rest, s) == Run(State([], [barred], false, Outside), rest, s)
  {
    var state, tokens := State([], [node], false, Outside), [Minus, Tag(w)] + rest;
    var barred := node.(negated := node.negated + s.BarChain(w));
    assert tokens[1..] == [Tag(w)] + rest && tokens[1..][1..] == rest;
    assert state.Step(Minus, s) == Parsed(state.(negateNext := true));
    assert WithLast([node], barred) == [barred];
    assert state.(negateNext := true).Step(Tag(w), s) == Parsed(State([], [barred], false, Outside));
    assert Run(state, tokens, s) == Run(state.(negateNext := true), tokens[1..], s);
  }

  /** Two negations: each is put behind what the chain of the last tag holds, and before what it excludes itself. */
  lemma NegatedTwice(a: Word, b: Word, c: Word, s: Services)
    ensures var la, lb, lc := Leaf(a, s.ids(a), false), Leaf(b, s.ids(b), true), Leaf(c, s.ids(c), true);
      var ra, rb, rc := s.Reason(la), s.Reason(lb), s.Reason(lc);
      Run(START, [Tag(a), Minus, Tag(b), Minus, Tag(c)], s) == Parsed(State([],
        [Node(la, ra.related,
          Bars(ra.excluded) + ([Barred(lb, rb.related)] + Bars(rb.excluded)) + ([Barred(lc, rc.related)] + Bars(rc.excluded)))],
        false, Outside))
  {
    var tokens := [Tag(a), Minus, Tag(b), Minus, Tag(c)];
    assert tokens[1..] == [Minus, Tag(b), Minus, Tag(c)] && tokens[1..][1..] == [Tag(b), Minus, Tag(c)];
    assert tokens[1..][1..][1..] == [Minus, Tag(c)] && [Minus, Tag(c)][1..] == [Tag(c)] && [Tag(c)][1..] == [];
    var node := s.SpineNode(a);
    var once := node.(negated := node.negated + s.BarChain(b));
    var twice := once.(negated := once.negated + s.BarChain(c));
    assert [] + [node] == [node] && WithLast([node], once) == [once] && WithLast([once], twice) == [twice];
    NegatedOnce(node, b, [Minus, Tag(c)], s);
    assert [Minus, Tag(c)] + [] == [Minus, Tag(c)];
    NegatedOnce(once, c, [], s);
    assert tokens[1..] == [Minus, Tag(b)] + [Minus, Tag(c)];
    assert START.Step(Tag(a), s) == Parsed(State([], [node], false, Outside));
  }

  /** What one turn takes off the path, and what that leaves of the run and of the notes. */
  lemma TurnOfRun(state: State, noted: Noted, path: seq<string>, cursor: nat, s: Services)
    requires cursor < |path| && !IsDelimiter(path[cursor])
    ensures var head, after := Head(path[cursor..]), cursor + Width(path[cursor..]);
      && after <= |path|
      && Run(state, Tokens(path[cursor..]), s) ==
          (if state.Step(head, s).Parsed? then Run(state.Step(head, s).state, Tokens(path[after..]), s) else state.Step(head, s))
      && Note(noted, Tokens(path[cursor..])) == Note(Note(noted, [head]), Tokens(path[after..]))
      && cursor + QueryLength(path[cursor..]) == after + QueryLength(path[after..])
  {
    var rest := path[cursor..];
    assert rest[Width(rest)..] == path[cursor + Width(rest)..];
    assert Tokens(rest)[1..] == Tokens(rest[Width(rest)..]);
  }

  /** What finishing from here will give: the outcome, the notes and the length of the query. */
  datatype Prospect = Prospect(out: Outcome, noted: Noted, length: nat)

  function ProspectAt(path: seq<string>, cursor: nat, state: State, noted: Noted, s: Services): Prospect
    requires cursor <= |path|
  {
    var rest := path[cursor..];
    Prospect(Run(state, Tokens(rest), s), Note(noted, Tokens(rest)), cursor + QueryLength(rest))
  }

  function Promise(path: seq<string>, s: Services): Prospect {
    Prospect(Run(START, Tokens(path), s), Note(UNNOTED, Tokens(path)), QueryLength(path))
  }

  /** What the loop keeps: finishing from here gives the result of the whole path. */
  ghost predicate Underway(path: seq<string>, cursor: nat, state: State, noted: Noted, s: Services) {
    cursor <= |path| && ProspectAt(path, cursor, state, noted, s) == Promise(path, s)
  }

  lemma UnderwayTurn(path: seq<string>, cursor: nat, state: State, noted: Noted, s: Services)
    requires Underway(path, cursor, state, noted, s) && cursor < |path| && !IsDelimiter(path[cursor])
    ensures var head, next := Head(path[cursor..]), state.Step(Head(path[cursor..]), s);
      if next.Parsed? then Underway(path, cursor + Width(path[cursor..]), next.state, Note(noted, [head]), s)
      else Promise(path, s).out == next
  {
    TurnOfRun(state, noted, path, cursor, s);
  }

  lemma UnderwayEnd(path: seq<string>, cursor: nat, state: State, noted: Noted, s: Services)
    requires Underway(path, cursor, state, noted, s) && (cursor == |path| || IsDelimiter(path[cursor]))
    ensures Promise(path, s) == Prospect(Parsed(state), noted, cursor)
  {
    assert Tokens(path[cursor..]) == [];
  }

  class QueryTree {
    var tree: seq<seq<Node>>
    var negateNextTag: bool
    var errorMessage: Option<Error>
    var lastTag: Option<string>
    var noted: Noted
    const services: Services

    constructor (services: Services)
      ensures this.services == services && tree == [] && !negateNextTag && errorMessage == None
      ensures lastTag == None && noted == UNNOTED
    {
      this.services := services;
      tree, negateNextTag, errorMessage, lastTag, noted := [], false, None, None, UNNOTED;
    }

    ghost function Loop(mode: Mode): State
      reads this
      requires tree != []
    {
      State(tree[..|tree| - 1], tree[|tree| - 1], negateNextTag, mode)
    }

    /** Append a node to the negated chain, to the related chain or to the spine, as the flags say. */
    method AddTag(word: Word, mode: Mode) returns (ok: bool, mode': Mode)
      requires tree != [] && Loop(mode).Add(word, services) != NullNode && errorMessage == None
      modifies `tree, `negateNextTag, `errorMessage
      ensures ok ==> errorMessage == None && tree != [] && old(Loop(mode).Add(word, services)) == Parsed(Loop(mode'))
      ensures !ok ==> errorMessage.Some? && old(Loop(mode).Add(word, services)) == Failed(errorMessage.value)
    {
      var n := |tree| - 1;
      var nodes := tree[n];
      mode' := if mode == GroupOpened then InGroup else mode;
      if negateNextTag {
        negateNextTag := false;
        if nodes == [] {
          errorMessage := Some(NegationFirst);
          return false, mode';
        }
        var last := nodes[|nodes| - 1];
        tree := tree[n := WithLast(nodes, last.(negated := last.negated + services.BarChain(word)))];
      } else if mode == InGroup {
        var last := nodes[|nodes| - 1];
        tree := tree[n := WithLast(nodes, last.(related := last.related + services.MemberChain(word)))];
      } else {
        tree := tree[n := nodes + [services.SpineNode(word)]];
      }
      ok := true;
      assert tree[..n] == old(tree)[..n];
    }

    /** A namespace token and, as far as the path goes, the key, the operator and the value after it. */
    method ReadTriple(path: seq<string>, cursor: nat) returns (word: Word, last: nat)
      requires cursor < |path| && !IsDelimiter(path[cursor]) && IsNamespace(path[cursor])
      modifies `noted
      ensures Tag(word) == Head(path[cursor..]) && last + 1 == cursor + Width(path[cursor..])
      ensures noted == Note(old(noted), [Tag(word)])
    {
      last := cursor;
      var key: Option<string>, value: Option<string>, operator := None, None, NoOperator;
      if last + 1 < |path| {
        last := last + 1;
        key := Some(path[last]);
        if last + 1 < |path| {
          last := last + 1;
          operator := OperatorOf(path[last]);
          if last + 1 < |path| {
            last := last + 1;
            value := Some(path[last]);
          }
        }
      }
      word := Triple(path[cursor], key, operator, value);
      noted := Noted(Some(path[cursor]), key, value, if operator == NoOperator then noted.operator else operator,
        noted.forceInode || operator in {GreaterThan, SmallerThan, Contains});
    }

    /** One turn of the loop; `last` is the last element of the path it takes. */
    method Turn(path: seq<string>, cursor: nat, mode: Mode) returns (ok: bool, last: nat, mode': Mode)
      requires cursor < |path| && !IsDelimiter(path[cursor]) && tree != [] && errorMessage == None
      requires Loop(mode).Step(Head(path[cursor..]), services) != NullNode
      modifies `tree, `negateNextTag, `errorMessage, `noted
      ensures ok ==>
        && errorMessage == None && tree != []
        && old(Loop(mode)).Step(Head(path[cursor..]), services) == Parsed(Loop(mode'))
        && last + 1 == cursor + Width(path[cursor..])
        && noted == Note(old(noted), [Head(path[cursor..])])
      ensures !ok ==> errorMessage.Some? && old(Loop(mode)).Step(Head(path[cursor..]), services) == Failed(errorMessage.value)
    {
      var text := path[cursor];
      ok, last, mode' := true, cursor, mode;
      if text == "" {
      } else if text == "-" {
        if negateNextTag {
          ok, errorMessage := false, Some(DoubleNegation);
        } else if mode != Outside {
          ok, errorMessage := false, Some(NegationInsideGroup);
        } else {
          negateNextTag := true;
        }
      } else if text == "+" {
        tree := tree + [[]];
        assert tree[..|tree| - 1] == old(tree) == old(Loop(mode)).done + [old(Loop(mode)).nodes];
      } else if text == "{" {
        if mode != Outside {
          ok, errorMessage := false, Some(NestedGroup);
        } else {
          mode' := GroupOpened;
        }
      } else if text == "}" {
        if mode == Outside {
          ok, errorMessage := false, Some(CloseWithoutOpen);
        } else {
          mode' := Outside;
        }
      } else if IsNamespace(text) {
        var word;
        word, last := ReadTriple(path, cursor);
        ok, mode' := AddTag(word, mode);
      } else {
        ok, mode' := AddTag(Flat(text), mode);
      }
    }

    /** The body of the loop: a turn, and the note of the last tag found. */
    method ParseToken(path: seq<string>, cursor: nat, mode: Mode) returns (ok: bool, cursor': nat, mode': Mode)
      requires cursor < |path| && !IsDelimiter(path[cursor]) && tree != [] && errorMessage == None
      requires Underway(path, cursor, Loop(mode), noted, services) && Promise(path, services).out != NullNode
      modifies `tree, `negateNextTag, `errorMessage, `noted, `lastTag
      ensures ok ==>
        && cursor < cursor' <= |path| && tree != [] && errorMessage == None
        && Underway(path, cursor', Loop(mode'), noted, services) && lastTag == Some(path[cursor' - 1])
      ensures !ok ==> errorMessage.Some? && Promise(path, services).out == Failed(errorMessage.value)
    {
      ghost var state, before := Loop(mode), noted;
      UnderwayTurn(path, cursor, state, before, services);
      var last;
      ok, last, mode' := Turn(path, cursor, mode);
      cursor' := cursor;
      if ok {
        lastTag := Some(path[last]);
        cursor' := last + 1;
      }
    }

    /** The loop, up to the delimiter or the end of the path. */
    method ParseTokens(path: seq<string>) returns (ok: bool, cursor: nat, ghost state: State)
      requires errorMessage == None && noted == UNNOTED && !negateNextTag
      requires !Crashes(Tokens(path))
      modifies this
      ensures ok ==>
        && tree == state.Tree() && negateNextTag == state.negateNext && errorMessage == None
        && Run(START, Tokens(path), services) == Parsed(state) && cursor == QueryLength(path)
        && noted == Note(UNNOTED, Tokens(path))
        && (cursor > 0 ==> lastTag == Some(path[cursor - 1]))
      ensures !ok ==> errorMessage.Some? && Run(START, Tokens(path), services) == Failed(errorMessage.value)
    {
      NullNodeIff(Tokens(path), services);
      tree, cursor := [[]], 0;
      var tagGroup := Outside;
      state := START;
      assert path[0..] == path && Loop(tagGroup) == state;
      while cursor < |path| && !IsDelimiter(path[cursor])
        invariant tree != [] && errorMessage == None && state == Loop(tagGroup)
        invariant Underway(path, cursor, state, noted, services)
        invariant cursor > 0 ==> lastTag == Some(path[cursor - 1])
        decreases |path| - cursor
      {
        ok, cursor, tagGroup := ParseToken(path, cursor, tagGroup);
        if !ok { return; }
        state := Loop(tagGroup);
      }
      UnderwayEnd(path, cursor, state, noted, services);
      ok := true;
    }

    /** `tagsistant_querytree_parse_store` on the part of the path after `store/`. */
    method ParseStore(path: seq<string>) returns (ok: bool, cursor: nat)
      requires errorMessage == None && noted == UNNOTED && !negateNextTag
      requires !Crashes(Tokens(path))
      modifies this
      ensures match Run(START, Tokens(path), services)
        case Parsed(state) =>
          && ok && errorMessage == None
          && tree == state.Tree() && negateNextTag == state.negateNext
          && noted == Note(UNNOTED, Tokens(path))
          && cursor == (if QueryLength(path) < |path| then QueryLength(path) + 1 else |path|)
          && (QueryLength(path) > 0 ==> lastTag == Some(path[QueryLength(path) - 1]))
        case Failed(error) => !ok && errorMessage == Some(error)
        case NullNode => false
    {
      NullNodeIff(Tokens(path), services);
      ghost var state;
      ok, cursor, state := ParseTokens(path);
      if ok && cursor < |path| {
        cursor := cursor + 1;
      }
    }
  }
}
