/**
 The query language between `store/` and `@/` (src/path_resolution.c:537-756): words, the tokens
 they are written with, and queries as an OR of ANDs of items.
 */
module QueryGrammar {
  import opened Schema

  datatype Operator = NoOperator | EqualTo | Contains | GreaterThan | SmallerThan

  /** A tag in a query; a triple tag that ends the path may lack key and value. */
  datatype Word = Flat(name: string) | Triple(namespace: string, key: Option<string>, operator: Operator, value: Option<string>)

  datatype Item = One(word: Word) | Group(words: seq<Word>) | Not(word: Word)

  /** The token stream as the parser cuts it up: a namespace takes the three tokens that follow it. */
  datatype Token = Blank | Minus | Plus | Open | Close | Tag(word: Word)

  function OperatorOf(text: string): Operator {
    if text == "gt" then GreaterThan
    else if text == "lt" then SmallerThan
    else if text == "eq" then EqualTo
    else if text == "inc" then Contains
    else NoOperator
  }

  function OperatorText(op: Operator): string
    requires op != NoOperator
  {
    match op
    case EqualTo => "eq"
    case Contains => "inc"
    case GreaterThan => "gt"
    case SmallerThan => "lt"
  }

  /** The query delimiter: any token that starts with `@`. */
  predicate IsDelimiter(text: string) {
    text != "" && text[0] == '@'
  }

  /** The token at the head of a path that does not start with the delimiter. */
  function Head(path: seq<string>): Token
    requires path != []
  {
    if path[0] == "" then Blank
    else if path[0] == "-" then Minus
    else if path[0] == "+" then Plus
    else if path[0] == "{" then Open
    else if path[0] == "}" then Close
    else if IsNamespace(path[0]) then
      Tag(Triple(path[0],
        if |path| > 1 then Some(path[1]) else None,
        if |path| > 2 then OperatorOf(path[2]) else NoOperator,
        if |path| > 3 then Some(path[3]) else None))
    else Tag(Flat(path[0]))
  }

  /** How many elements of the path the token takes. */
  function Width(path: seq<string>): (n: nat)
    requires path != []
    ensures 0 < n <= |path|
  {
    if Head(path).Tag? && Head(path).word.Triple? then if |path| < 4 then |path| else 4 else 1
  }

  function Tokens(path: seq<string>): seq<Token> {
    if path == [] || IsDelimiter(path[0]) then [] else [Head(path)] + Tokens(path[Width(path)..])
  }

  /** Where the delimiter is, or the end of the path. */
  function QueryLength(path: seq<string>): (n: nat)
    ensures n <= |path|
  {
    if path == [] || IsDelimiter(path[0]) then 0 else Width(path) + QueryLength(path[Width(path)..])
  }

  // ----- printing -----

  /** Words that can be written: a flat name must not read as something else. */
  predicate Writable(w: Word) {
    match w
    case Flat(name) => name != "" && name[0] != '@' && name !in ["-", "+", "{", "}"] && !IsNamespace(name)
    case Triple(ns, key, op, value) => IsNamespace(ns) && ns[0] != '@' && key.Some? && op != NoOperator && value.Some?
  }

  function Write(w: Word): seq<string>
    requires Writable(w)
  {
    match w
    case Flat(name) => [name]
    case Triple(ns, key, op, value) => [ns, key.value, OperatorText(op), value.value]
  }

  function WriteToken(t: Token): seq<string>
    requires t.Tag? ==> Writable(t.word)
  {
    match t
    case Blank => [""]
    case Minus => ["-"]
    case Plus => ["+"]
    case Open => ["{"]
    case Close => ["}"]
    case Tag(w) => Write(w)
  }

  predicate AllWritable(tokens: seq<Token>) {
    forall k :: 0 <= k < |tokens| ==> tokens[k].Tag? ==> Writable(tokens[k].word)
  }

  function WriteTokens(tokens: seq<Token>): seq<string>
    requires AllWritable(tokens)
  {
    if tokens == [] then [] else WriteToken(tokens[0]) + WriteTokens(tokens[1..])
  }

  lemma HeadOfWritten(t: Token, tail: seq<string>)
    requires t.Tag? ==> Writable(t.word)
    ensures var path := WriteToken(t) + tail;
      !IsDelimiter(path[0]) && Head(path) == t && Width(path) == |WriteToken(t)| && path[Width(path)..] == tail
  {
  }

  /** Whatever starts with `@` ends the query; nothing else does. */
  lemma DelimiterEnds(text: string, rest: seq<string>)
    ensures Tokens(["@" + text] + rest) == [] && QueryLength(["@" + text] + rest) == 0
    ensures text == "" || text[0] != '@' ==> Tokens([text] + rest) != [] && QueryLength([text] + rest) > 0
  {
  }

  lemma ReadBack(t: Token, tail: seq<string>)
    requires t.Tag? ==> Writable(t.word)
    ensures Tokens(WriteToken(t) + tail) == [t] + Tokens(tail)
    ensures QueryLength(WriteToken(t) + tail) == |WriteToken(t)| + QueryLength(tail)
  {
    HeadOfWritten(t, tail);
  }

  /** Reading back what was written: whatever follows the delimiter does not matter. */
  lemma {:induction false} TokensOfWritten(tokens: seq<Token>, delimiter: string, rest: seq<string>)
    requires AllWritable(tokens) && IsDelimiter(delimiter)
    ensures var path := WriteTokens(tokens) + [delimiter] + rest;
      Tokens(path) == tokens && QueryLength(path) == |WriteTokens(tokens)|
  {
    if tokens != [] {
      var tail := WriteTokens(tokens[1..]) + [delimiter] + rest;
      TokensOfWritten(tokens[1..], delimiter, rest);
      ReadBack(tokens[0], tail);
      Regroup(WriteToken(tokens[0]), WriteTokens(tokens[1..]), [delimiter]);
      Regroup(WriteToken(tokens[0]), WriteTokens(tokens[1..]) + [delimiter], rest);
    }
  }

  // ----- queries -----

  function WordTokens(words: seq<Word>): seq<Token> {
    if words == [] then [] else [Tag(words[0])] + WordTokens(words[1..])
  }

  function ItemTokens(item: Item): seq<Token> {
    match item
    case One(w) => [Tag(w)]
    case Group(ws) => [Open] + WordTokens(ws) + [Close]
    case Not(w) => [Minus, Tag(w)]
  }

  function AndTokens(items: seq<Item>): seq<Token> {
    if items == [] then [] else ItemTokens(items[0]) + AndTokens(items[1..])
  }

  function QueryTokens(query: seq<seq<Item>>): seq<Token>
    requires query != []
  {
    if |query| == 1 then AndTokens(query[0]) else AndTokens(query[0]) + [Plus] + QueryTokens(query[1..])
  }

  predicate WritableItem(item: Item) {
    match item
    case One(w) => Writable(w)
    case Group(ws) => ws != [] && forall w :: w in ws ==> Writable(w)
    case Not(w) => Writable(w)
  }

  /** An AND set has items, and a negation needs a tag before it. */
  predicate ProperAnd(items: seq<Item>) {
    items != [] && !items[0].Not? && forall k :: 0 <= k < |items| ==> WritableItem(items[k])
  }

  predicate Proper(query: seq<seq<Item>>) {
    query != [] && forall k :: 0 <= k < |query| ==> ProperAnd(query[k])
  }

  lemma {:induction false} WordTokensWritable(words: seq<Word>)
    requires forall w :: w in words ==> Writable(w)
    ensures AllWritable(WordTokens(words))
  {
    if words != [] {
      WordTokensWritable(words[1..]);
    }
  }

  lemma {:induction false} AndTokensWritable(items: seq<Item>)
    requires forall k :: 0 <= k < |items| ==> WritableItem(items[k])
    ensures AllWritable(AndTokens(items))
  {
    if items != [] {
      if items[0].Group? { WordTokensWritable(items[0].words); }
      assert AllWritable(ItemTokens(items[0]));
      AndTokensWritable(items[1..]);
    }
  }

  lemma {:induction false} QueryTokensWritable(query: seq<seq<Item>>)
    requires Proper(query)
    ensures AllWritable(QueryTokens(query))
  {
    AndTokensWritable(query[0]);
    if |query| > 1 {
      QueryTokensWritable(query[1..]);
    }
  }

  // ----- queries as paths, element by element -----

  function WordsPath(words: seq<Word>): seq<string>
    requires forall w :: w in words ==> Writable(w)
  {
    if words == [] then [] else Write(words[0]) + WordsPath(words[1..])
  }

  function ItemPath(item: Item): seq<string>
    requires WritableItem(item)
  {
    match item
    case One(w) => Write(w)
    case Group(ws) => ["{"] + WordsPath(ws) + ["}"]
    case Not(w) => ["-"] + Write(w)
  }

  function AndPath(items: seq<Item>): seq<string>
    requires forall k :: 0 <= k < |items| ==> WritableItem(items[k])
  {
    if items == [] then [] else ItemPath(items[0]) + AndPath(items[1..])
  }

  function QueryPath(query: seq<seq<Item>>): seq<string>
    requires Proper(query)
  {
    if |query| == 1 then AndPath(query[0]) else AndPath(query[0]) + ["+"] + QueryPath(query[1..])
  }

  lemma {:induction false} WriteAppend(a: seq<Token>, b: seq<Token>)
    requires AllWritable(a) && AllWritable(b)
    ensures AllWritable(a + b) && WriteTokens(a + b) == WriteTokens(a) + WriteTokens(b)
  {
    if a == [] {
      assert a + b == b;
    } else {
      WriteAppend(a[1..], b);
      assert (a + b)[1..] == a[1..] + b;
      Regroup(WriteToken(a[0]), WriteTokens(a[1..]), WriteTokens(b));
    }
  }

  lemma WriteOne(t: Token)
    requires t.Tag? ==> Writable(t.word)
    ensures AllWritable([t]) && WriteTokens([t]) == WriteToken(t)
  {
    assert [t][1..] == [] && WriteToken(t) + [] == WriteToken(t);
  }

  lemma {:induction false} WritesWords(words: seq<Word>)
    requires forall w :: w in words ==> Writable(w)
    ensures AllWritable(WordTokens(words)) && WriteTokens(WordTokens(words)) == WordsPath(words)
  {
    if words != [] {
      WordTokensWritable(words);
      WritesWords(words[1..]);
      assert WordTokens(words)[1..] == WordTokens(words[1..]);
    }
  }

  lemma WritesItem(item: Item)
    requires WritableItem(item)
    ensures AllWritable(ItemTokens(item)) && WriteTokens(ItemTokens(item)) == ItemPath(item)
  {
    match item
    case One(w) => WriteOne(Tag(w));
    case Group(ws) =>
      WritesWords(ws);
      WriteOne(Open);
      WriteOne(Close);
      WriteAppend([Open], WordTokens(ws));
      WriteAppend([Open] + WordTokens(ws), [Close]);
    case Not(w) =>
      WriteOne(Minus);
      WriteOne(Tag(w));
      WriteAppend([Minus], [Tag(w)]);
      assert [Minus, Tag(w)] == [Minus] + [Tag(w)];
  }

  lemma {:induction false} WritesAnd(items: seq<Item>)
    requires forall k :: 0 <= k < |items| ==> WritableItem(items[k])
    ensures AllWritable(AndTokens(items)) && WriteTokens(AndTokens(items)) == AndPath(items)
  {
    if items != [] {
      WritesItem(items[0]);
      WritesAnd(items[1..]);
      WriteAppend(ItemTokens(items[0]), AndTokens(items[1..]));
    }
  }

  /** A query is written with `{`, `}`, `-` and `+` around its words, and nothing else. */
  lemma {:induction false} WritesQuery(query: seq<seq<Item>>)
    requires Proper(query)
    ensures AllWritable(QueryTokens(query)) && WriteTokens(QueryTokens(query)) == QueryPath(query)
  {
    WritesAnd(query[0]);
    if |query| > 1 {
      WritesQuery(query[1..]);
      WriteOne(Plus);
      WriteAppend(AndTokens(query[0]), [Plus]);
      WriteAppend(AndTokens(query[0]) + [Plus], QueryTokens(query[1..]));
    }
  }
}
