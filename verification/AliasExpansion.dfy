/**
 Alias expansion (src/path_resolution.c:1207-1311): while the path still holds `=name`, every
 occurrence of the leftmost one is replaced by the query that the alias bookmarks.
 */
module AliasExpansion {
  import opened Schema

  /** The `aliases` table. */
  type Aliases = map<string, string>

  /** `tagsistant_sql_alias_get`: an unknown alias yields a null string, which appends nothing. */
  function Query(aliases: Aliases, name: string): string {
    if name in aliases then aliases[name] else ""
  }

  /** How far a path runs up to its first slash. */
  function Run(s: string): (n: nat)
    ensures n <= |s| && '/' !in s[..n] && (n == |s| || s[n] == '/')
  {
    if s == "" || s[0] == '/' then 0 else 1 + Run(s[1..])
  }

  /** The regular expression `=([^/]+)` matches here. */
  predicate StartsReference(s: string) {
    |s| > 1 && s[0] == '=' && s[1] != '/'
  }

  datatype Piece = Literal(c: char) | Reference(name: string)

  /** How much of a path its first piece takes: a whole reference, or else one character. */
  function HeadLength(s: string): (n: nat)
    requires s != ""
    ensures 0 < n <= |s|
  {
    if StartsReference(s) then 1 + Run(s[1..]) else 1
  }

  function Head(s: string): Piece
    requires s != ""
  {
    if StartsReference(s) then Reference(s[1..HeadLength(s)]) else Literal(s[0])
  }

  /** A path as literal characters and alias references, as the regular expression finds them. */
  function Scan(s: string): seq<Piece> {
    if s == "" then [] else [Head(s)] + Scan(s[HeadLength(s)..])
  }

  function Render(p: seq<Piece>): string {
    if p == [] then ""
    else (match p[0] case Literal(c) => [c] case Reference(name) => "=" + name) + Render(p[1..])
  }

  function References(p: seq<Piece>): set<string> {
    set k | 0 <= k < |p| && p[k].Reference? :: p[k].name
  }

  /** `g_regex_replace_eval` with a pattern that holds no regular expression characters. */
  function ReplaceAll(s: string, pattern: string, text: string): string
    requires pattern != ""
  {
    if s == "" then ""
    else if pattern <= s then text + ReplaceAll(s[|pattern|..], pattern, text)
    else [s[0]] + ReplaceAll(s[1..], pattern, text)
  }

  /** One pass of the loop on alias `name`. */
  function Rewrite(aliases: Aliases, s: string, name: string): string {
    ReplaceAll(s, "=" + name, Query(aliases, name))
  }

  /** Replace every reference to `name` by the pieces `with`. */
  function Substitute(p: seq<Piece>, name: string, with: seq<Piece>): seq<Piece> {
    if p == [] then []
    else (if p[0] == Reference(name) then with else [p[0]]) + Substitute(p[1..], name, with)
  }

  /** Names that mean the same to the regular expression engine and to the table. */
  predicate Plain(name: string) {
    name != "" && forall c :: c in name ==> c !in "/=\\^$.|?*+()[]{}"
  }

  /** Every name is plain and none is a prefix of another. */
  ghost predicate Tidy(names: set<string>) {
    && (forall a :: a in names ==> Plain(a))
    && (forall a, b :: a in names && b in names && a != b ==> !(a <= b))
  }

  // ----- the string rewriting does on pieces what it should -----

  /** The end of a string never merges with a following slash. */
  predicate Boundary(s: string) {
    s == "" || s[0] == '/'
  }

  lemma {:induction false} RunStops(s: string, t: string)
    requires Boundary(t)
    ensures Run(s + t) == Run(s)
  {
    if s == "" {
      assert s + t == t;
    } else {
      assert (s + t)[1..] == s[1..] + t;
      RunStops(s[1..], t);
    }
  }

  lemma HeadStops(s: string, t: string)
    requires s != "" && Boundary(t)
    ensures HeadLength(s + t) == HeadLength(s) && Head(s + t) == Head(s)
    ensures (s + t)[HeadLength(s)..] == s[HeadLength(s)..] + t
  {
    if StartsReference(s) {
      assert (s + t)[1..] == s[1..] + t;
      RunStops(s[1..], t);
    }
  }

  lemma {:induction false} ScanAppend(s: string, t: string)
    requires Boundary(t)
    ensures Scan(s + t) == Scan(s) + Scan(t)
  {
    if s == "" {
      assert s + t == t;
    } else {
      HeadStops(s, t);
      ScanAppend(s[HeadLength(s)..], t);
    }
  }

  /** The pattern occurs somewhere in the string. */
  predicate Contains(s: string, pattern: string) {
    s != "" && (pattern <= s || Contains(s[1..], pattern))
  }

  lemma NoMatchAcross(b: string, t: string, pattern: string)
    requires '/' !in pattern && Boundary(t) && !(pattern <= b)
    ensures !(pattern <= b + t)
  {
    if |b| < |pattern| && t != "" {
      assert pattern[|b|] in pattern && (b + t)[|b|] == '/';
    } else if |pattern| <= |b| {
      assert (b + t)[..|pattern|] == b[..|pattern|];
    }
  }

  /** A pattern without slashes never matches across the end of a path element. */
  lemma {:induction false} ReplaceSplits(b: string, t: string, pattern: string, text: string)
    requires pattern != "" && '/' !in pattern && Boundary(t)
    ensures ReplaceAll(b + t, pattern, text) == ReplaceAll(b, pattern, text) + ReplaceAll(t, pattern, text)
  {
    if b == "" {
      assert b + t == t;
    } else {
      var replaced := ReplaceAll(t, pattern, text);
      if pattern <= b {
        var rest := b[|pattern|..];
        assert (b + t)[|pattern|..] == rest + t;
        ReplaceSplits(rest, t, pattern, text);
        Regroup(text, ReplaceAll(rest, pattern, text), replaced);
      } else {
        NoMatchAcross(b, t, pattern);
        assert (b + t)[1..] == b[1..] + t;
        ReplaceSplits(b[1..], t, pattern, text);
        Regroup([b[0]], ReplaceAll(b[1..], pattern, text), replaced);
      }
    }
  }

  /** Replacing changes a string exactly when the pattern occurs and the text is another one. */
  lemma {:induction false} UnchangedIff(s: string, pattern: string, text: string)
    requires pattern != ""
    ensures ReplaceAll(s, pattern, text) == s <==> !Contains(s, pattern) || text == pattern
    ensures |text| >= |pattern| ==> |ReplaceAll(s, pattern, text)| >= |s|
    ensures |text| <= |pattern| ==> |ReplaceAll(s, pattern, text)| <= |s|
    ensures |text| != |pattern| && Contains(s, pattern) ==> |ReplaceAll(s, pattern, text)| != |s|
  {
    if s != "" {
      if pattern <= s {
        UnchangedIff(s[|pattern|..], pattern, text);
        var replaced := ReplaceAll(s[|pattern|..], pattern, text);
        assert s == pattern + s[|pattern|..];
        if |text| == |pattern| && text + replaced == s {
          assert text == (text + replaced)[..|pattern|] == s[..|pattern|];
        }
      } else {
        UnchangedIff(s[1..], pattern, text);
        assert s == [s[0]] + s[1..];
      }
    }
  }

  /** No reference other than `name` itself has `=name` in it: neither at its head nor further on. */
  ghost predicate Intact(p: seq<Piece>, name: string) {
    forall a :: a in References(p) && a != name ==> !Contains("=" + a, "=" + name)
  }

  lemma IntactSplit(s: string, name: string)
    requires s != ""
    ensures Intact(Scan(s), name) <==>
      && (Head(s).Reference? && Head(s).name != name ==> !Contains("=" + Head(s).name, "=" + name))
      && Intact(Scan(s[HeadLength(s)..]), name)
  {
    ReferencesSplit(Scan(s));
    assert Scan(s)[0] == Head(s) && Scan(s)[1..] == Scan(s[HeadLength(s)..]);
  }

  lemma {:induction false} NoEquals(s: string, pattern: string)
    requires '=' !in s && pattern != "" && pattern[0] == '='
    ensures !Contains(s, pattern)
  {
    if s != "" {
      assert s[0] in s && forall c :: c in s[1..] ==> c in s;
      NoEquals(s[1..], pattern);
    }
  }

  /** Plain names, none a prefix of another, do not get in each other's way. */
  lemma TidyIsIntact(names: set<string>, p: seq<Piece>, name: string)
    requires Tidy(names) && References(p) <= names && name in names
    ensures Intact(p, name)
  {
    forall a | a in References(p) && a != name ensures !Contains("=" + a, "=" + name) {
      assert ("=" + name)[1..] == name && ("=" + a)[1..] == a;
      assert "=" + name <= "=" + a ==> name <= a;
      NoEquals(a, "=" + name);
    }
  }

  /** Replacing treats the first piece by itself. */
  lemma ReplaceHead(s: string, name: string, text: string)
    requires s != "" && Plain(name)
    ensures var head, rest := s[..HeadLength(s)], s[HeadLength(s)..];
      && ReplaceAll(s, "=" + name, text) == ReplaceAll(head, "=" + name, text) + ReplaceAll(rest, "=" + name, text)
      && (if Head(s).Reference? then head == "=" + Head(s).name else !Contains(head, "=" + name))
  {
    var pattern, n := "=" + name, HeadLength(s);
    assert name[0] in name;
    if Head(s).Reference? {
      assert '/' !in pattern && s == s[..n] + s[n..];
      ReplaceSplits(s[..n], s[n..], pattern, text);
    } else {
      assert pattern[1] == name[0] && s[..1] == [s[0]] && s[..1][1..] == "";
      assert ReplaceAll(s[..1], pattern, text) == [s[0]];
    }
  }

  lemma ReplaceWhole(pattern: string, text: string)
    requires pattern != ""
    ensures ReplaceAll(pattern, pattern, text) == text
  {
    assert pattern[|pattern|..] == "" && text + "" == text;
  }

  /** A kept first piece is still the first piece of whatever follows it. */
  lemma ScanKeeps(s: string, t: string)
    requires s != "" && (Boundary(s[HeadLength(s)..]) ==> Boundary(t))
    ensures Scan(s[..HeadLength(s)] + t) == [Head(s)] + Scan(t)
  {
    var u := s[..HeadLength(s)];
    if StartsReference(s) {
      assert u + s[HeadLength(s)..] == s;
      HeadStops(u, s[HeadLength(s)..]);
      ScanAppend(u, t);
      assert u[HeadLength(u)..] == "";
    } else {
      assert (u + t)[1..] == t;
      assert !StartsReference(u + t);
    }
  }

  /** A pass replaces text; where no reference gets in the way that is replacing references. */
  lemma {:induction false} PassSubstitutes(s: string, name: string, text: string)
    requires Plain(name) && Intact(Scan(s), name)
    ensures Scan(ReplaceAll(s, "=" + name, text)) == Substitute(Scan(s), name, Scan(text))
    ensures Boundary(s) ==> Boundary(ReplaceAll(s, "=" + name, text))
  {
    if s != "" {
      var head, rest := s[..HeadLength(s)], s[HeadLength(s)..];
      IntactSplit(s, name);
      PassSubstitutes(rest, name, text);
      ReplaceHead(s, name, text);
      var t := ReplaceAll(rest, "=" + name, text);
      if Head(s) == Reference(name) {
        ReplaceWhole("=" + name, text);
        ScanAppend(text, t);
      } else {
        UnchangedIff(head, "=" + name, text);
        ScanKeeps(s, t);
      }
    }
  }

  /** The loop replaces text; on tidy names that is replacing references. */
  lemma ScanRewrite(s: string, names: set<string>, name: string, text: string)
    requires Tidy(names) && References(Scan(s)) <= names && name in names
    ensures Scan(ReplaceAll(s, "=" + name, text)) == Substitute(Scan(s), name, Scan(text))
    ensures Boundary(s) ==> Boundary(ReplaceAll(s, "=" + name, text))
  {
    TidyIsIntact(names, Scan(s), name);
    PassSubstitutes(s, name, text);
  }

  lemma {:induction false} RenderAppend(p: seq<Piece>, q: seq<Piece>)
    ensures Render(p + q) == Render(p) + Render(q)
  {
    if p == [] {
      assert p + q == q;
    } else {
      assert (p + q)[1..] == p[1..] + q;
      RenderAppend(p[1..], q);
    }
  }

  lemma {:induction false} RenderScan(s: string)
    ensures Render(Scan(s)) == s
  {
    if s != "" {
      RenderScan(s[HeadLength(s)..]);
    }
  }

  /** The path with the references to `name`, and only them, replaced. */
  function Substituted(s: string, name: string, text: string): string {
    Render(Substitute(Scan(s), name, Scan(text)))
  }

  lemma SubstitutedHead(s: string, name: string, text: string)
    requires s != ""
    ensures var rest := Substituted(s[HeadLength(s)..], name, text);
      Substituted(s, name, text) == (if Head(s) == Reference(name) then text else s[..HeadLength(s)]) + rest
  {
    var p, with := Scan(s), Scan(text);
    assert p[1..] == Scan(s[HeadLength(s)..]);
    RenderAppend(if p[0] == Reference(name) then with else [p[0]], Substitute(p[1..], name, with));
    RenderScan(text);
    assert Render([p[0]][1..]) == "";
  }

  /** A reference in the way makes a pass differ from substitution, unless the alias stands for itself. */
  lemma {:induction false} IntrusionShows(s: string, name: string, text: string)
    requires Plain(name)
    ensures var a, b := ReplaceAll(s, "=" + name, text), Substituted(s, name, text);
      && (a == b ==> Intact(Scan(s), name) || text == "=" + name)
      && (|text| >= 1 + |name| ==> |a| >= |b|) && (|text| <= 1 + |name| ==> |a| <= |b|)
      && (|text| != 1 + |name| && |a| == |b| ==> Intact(Scan(s), name))
  {
    if s != "" {
      var pattern, head, rest := "=" + name, s[..HeadLength(s)], s[HeadLength(s)..];
      IntactSplit(s, name);
      IntrusionShows(rest, name, text);
      ReplaceHead(s, name, text);
      SubstitutedHead(s, name, text);
      UnchangedIff(head, pattern, text);
      if Head(s) == Reference(name) { ReplaceWhole(pattern, text); }
      CutAlike(ReplaceAll(head, pattern, text), ReplaceAll(rest, pattern, text),
        if Head(s) == Reference(name) then text else head, Substituted(rest, name, text));
    }
  }

  lemma CutAlike(a: string, a': string, b: string, b': string)
    ensures a + a' == b + b' && |a| == |b| ==> a == b && a' == b'
  {
    if a + a' == b + b' && |a| == |b| {
      assert a == (a + a')[..|a|] && b == (b + b')[..|a|];
      assert a' == (a + a')[|a|..] && b' == (b + b')[|a|..];
    }
  }

  lemma {:induction false} SubstituteItself(p: seq<Piece>, name: string)
    ensures Substitute(p, name, [Reference(name)]) == p
  {
    if p != [] {
      SubstituteItself(p[1..], name);
      assert p == [p[0]] + p[1..];
      assert (if p[0] == Reference(name) then [Reference(name)] else [p[0]]) == [p[0]];
    }
  }

  lemma ScanOne(name: string)
    requires Plain(name)
    ensures Scan("=" + name) == [Reference(name)]
  {
    assert name[0] in name && '/' !in name;
    var s := "=" + name;
    assert s[1..] == name && s[1] == name[0] && HeadLength(s) == 1 + |name| == |s|;
    assert Head(s) == Reference(s[1..|s|]) && s[1..|s|] == name;
    assert s[|s|..] == "" && Scan(s) == [Head(s)] + Scan(s[|s|..]);
  }

  /**
   What a pass of the loop gets right: it replaces references, and nothing else, exactly when no other
   reference of the path has `=name` in it, or the alias stands for itself.
   */
  lemma PassIsSubstitutionIff(s: string, name: string, text: string)
    requires Plain(name)
    ensures Scan(ReplaceAll(s, "=" + name, text)) == Substitute(Scan(s), name, Scan(text))
      <==> Intact(Scan(s), name) || text == "=" + name
  {
    if Intact(Scan(s), name) {
      PassSubstitutes(s, name, text);
    } else if text == "=" + name {
      UnchangedIff(s, text, text);
      ScanOne(name);
      SubstituteItself(Scan(s), name);
    } else if Scan(ReplaceAll(s, "=" + name, text)) == Substitute(Scan(s), name, Scan(text)) {
      RenderScan(ReplaceAll(s, "=" + name, text));
      IntrusionShows(s, name, text);
    }
  }

  // ----- full recursive substitution -----

  function Expansion(aliases: Aliases, name: string): seq<Piece> {
    Scan(Query(aliases, name))
  }

  /** Recursive substitution, `depth` aliases deep. */
  function Full(aliases: Aliases, p: seq<Piece>, depth: nat): seq<Piece>
    decreases depth, |p|
  {
    if p == [] then [] else FullPiece(aliases, p[0], depth) + Full(aliases, p[1..], depth)
  }

  function FullPiece(aliases: Aliases, piece: Piece, depth: nat): seq<Piece>
    decreases depth, 0
  {
    match piece
    case Literal(_) => [piece]
    case Reference(a) => if depth == 0 then [] else Full(aliases, Expansion(aliases, a), depth - 1)
  }

  /** How many rewrites of single references recursive substitution takes. */
  ghost function Weight(aliases: Aliases, p: seq<Piece>, depth: nat): nat
    decreases depth, |p|
  {
    if p == [] then 0 else WeightPiece(aliases, p[0], depth) + Weight(aliases, p[1..], depth)
  }

  ghost function WeightPiece(aliases: Aliases, piece: Piece, depth: nat): nat
    decreases depth, 0
  {
    match piece
    case Literal(_) => 0
    case Reference(a) => if depth == 0 then 1 else 1 + Weight(aliases, Expansion(aliases, a), depth - 1)
  }

  /** The names whose references bottom out within `depth` rounds. */
  ghost function Grounded(aliases: Aliases, names: set<string>, depth: nat): set<string> {
    if depth == 0 then {}
    else Resting(aliases, names, Grounded(aliases, names, depth - 1))
  }

  /** The names whose references all lie in `ground`. */
  ghost function Resting(aliases: Aliases, names: set<string>, ground: set<string>): set<string> {
    set a | a in names && References(Expansion(aliases, a)) <= ground
  }

  /** Alias references never leave `names`. */
  ghost predicate Closed(aliases: Aliases, names: set<string>) {
    forall a :: a in names ==> References(Expansion(aliases, a)) <= names
  }

  ghost predicate Mentions(p: seq<Piece>, names: set<string>) {
    exists a :: a in names && a in References(p)
  }

  /** Aliases that can be followed for ever: each mentions another of them. */
  ghost predicate Looping(aliases: Aliases, loop: set<string>) {
    forall a {:trigger Expansion(aliases, a)} :: a in loop ==> Mentions(Expansion(aliases, a), loop)
  }

  lemma ReferencesSplit(p: seq<Piece>)
    requires p != []
    ensures References(p) == References(p[..1]) + References(p[1..])
    ensures References(p[..1]) == if p[0].Reference? then {p[0].name} else {}
  {
    assert forall k :: 0 <= k < |p[1..]| ==> p[1..][k] == p[k + 1];
    assert forall k :: 0 < k < |p| ==> p[k] == p[1..][k - 1];
    assert p[0].Reference? ==> p[..1][0].name in References(p[..1]);
  }

  lemma ReferencesAppend(p: seq<Piece>, q: seq<Piece>)
    ensures References(p + q) == References(p) + References(q)
  {
    assert forall k :: 0 <= k < |p| ==> (p + q)[k] == p[k];
    assert forall k :: 0 <= k < |q| ==> (p + q)[|p| + k] == q[k];
  }

  lemma {:induction false} FullAppend(aliases: Aliases, p: seq<Piece>, q: seq<Piece>, depth: nat)
    ensures Full(aliases, p + q, depth) == Full(aliases, p, depth) + Full(aliases, q, depth)
    ensures Weight(aliases, p + q, depth) == Weight(aliases, p, depth) + Weight(aliases, q, depth)
  {
    if p == [] {
      assert p + q == q;
    } else {
      assert (p + q)[0] == p[0] && (p + q)[1..] == p[1..] + q;
      FullAppend(aliases, p[1..], q, depth);
    }
  }

  /** Below the depth at which the references bottom out, more depth changes nothing. */
  lemma {:induction false} FullStable(aliases: Aliases, names: set<string>, p: seq<Piece>, depth: nat, deeper: nat)
    requires References(p) <= Grounded(aliases, names, depth) && depth <= deeper
    ensures Full(aliases, p, deeper) == Full(aliases, p, depth)
    ensures Weight(aliases, p, deeper) == Weight(aliases, p, depth)
    decreases depth, |p|
  {
    if p != [] {
      ReferencesSplit(p);
      FullStable(aliases, names, p[1..], depth, deeper);
      if p[0].Reference? {
        FullStable(aliases, names, Expansion(aliases, p[0].name), depth - 1, deeper - 1);
      }
    }
  }

  /** Rewriting one alias keeps the meaning and uses up weight. */
  lemma {:induction false} SubstituteKeeps(aliases: Aliases, names: set<string>, p: seq<Piece>, name: string, depth: nat)
    requires References(p) <= Grounded(aliases, names, depth) && name in Grounded(aliases, names, depth)
    ensures var p' := Substitute(p, name, Expansion(aliases, name));
      && Full(aliases, p', depth) == Full(aliases, p, depth)
      && Weight(aliases, p', depth) <= Weight(aliases, p, depth)
      && (name in References(p) ==> Weight(aliases, p', depth) < Weight(aliases, p, depth))
  {
    if p != [] {
      ReferencesSplit(p);
      SubstituteKeeps(aliases, names, p[1..], name, depth);
      var e := Expansion(aliases, name);
      var rest := Substitute(p[1..], name, e);
      if p[0] == Reference(name) {
        FullAppend(aliases, e, rest, depth);
        FullStable(aliases, names, e, depth - 1, depth);
      } else {
        assert ([p[0]] + rest)[1..] == rest;
      }
    }
  }

  /** What references a rewrite leaves. */
  lemma {:induction false} SubstituteReferences(p: seq<Piece>, name: string, with: seq<Piece>)
    ensures References(Substitute(p, name, with)) ==
      References(p) - {name} + if name in References(p) then References(with) else {}
  {
    if p != [] {
      ReferencesSplit(p);
      SubstituteReferences(p[1..], name, with);
      var rest := Substitute(p[1..], name, with);
      if p[0] == Reference(name) {
        ReferencesAppend(with, rest);
      } else {
        ReferencesAppend([p[0]], rest);
        assert [p[0]] == p[..1];
      }
    }
  }

  lemma {:induction false} GroundedGrows(aliases: Aliases, names: set<string>, depth: nat)
    ensures Grounded(aliases, names, depth) <= Grounded(aliases, names, depth + 1)
  {
    if depth > 0 {
      GroundedGrows(aliases, names, depth - 1);
    }
  }

  /** What holds of consecutive rounds: the next changes nothing, or each so far has added a name. */
  ghost predicate SettledOrGrown(a: set<string>, b: set<string>, rounds: nat) {
    a == b || |a| >= rounds
  }

  lemma SettledOrGrownStep(a: set<string>, b: set<string>, c: set<string>, rounds: nat)
    requires SettledOrGrown(a, b, rounds) && if a == b then b == c else |a| < |b|
    ensures SettledOrGrown(b, c, rounds + 1)
  {
  }

  lemma GroundedSettlesOn(aliases: Aliases, names: set<string>, depth: nat)
    requires SettlesAt(aliases, names, depth)
    ensures SettlesAt(aliases, names, depth + 1)
  {
    GroundedStep(aliases, names, depth);
    SettledOrGrownStep(Grounded(aliases, names, depth), Grounded(aliases, names, depth + 1),
      Grounded(aliases, names, depth + 2), depth);
  }

  ghost predicate SettlesAt(aliases: Aliases, names: set<string>, depth: nat) {
    SettledOrGrown(Grounded(aliases, names, depth), Grounded(aliases, names, depth + 1), depth)
  }

  lemma {:induction false} GroundedSettles(aliases: Aliases, names: set<string>, depth: nat)
    ensures SettlesAt(aliases, names, depth)
  {
    if depth == 0 {
      NothingYet(Grounded(aliases, names, 0), Grounded(aliases, names, 1));
    } else {
      GroundedSettles(aliases, names, depth - 1);
      GroundedSettlesOn(aliases, names, depth - 1);
    }
  }

  lemma NothingYet(a: set<string>, b: set<string>)
    ensures SettledOrGrown(a, b, 0)
  {
  }

  lemma GroundedStep(aliases: Aliases, names: set<string>, depth: nat)
    ensures var a, b := Grounded(aliases, names, depth), Grounded(aliases, names, depth + 1);
      if a == b then b == Grounded(aliases, names, depth + 2) else |a| < |b|
  {
    var a, b := Grounded(aliases, names, depth), Grounded(aliases, names, depth + 1);
    GroundedGrows(aliases, names, depth);
    assert b == Resting(aliases, names, a) && Grounded(aliases, names, depth + 2) == Resting(aliases, names, b);
    if a != b {
      CardinalityGrows(a, b);
    }
  }

  lemma CardinalityGrows(a: set<string>, b: set<string>)
    requires a <= b && a != b
    ensures |a| < |b|
  {
    assert b == a + (b - a) && |b| == |a| + |b - a|;
  }

  /** The names that do not bottom out can be followed for ever. */
  lemma {:induction false} GroundedOrLooping(aliases: Aliases, names: set<string>)
    requires Closed(aliases, names)
    ensures Looping(aliases, names - Grounded(aliases, names, |names|))
  {
    var n := |names|;
    var g := Grounded(aliases, names, n);
    GroundedSettles(aliases, names, n);
    assert g <= names;
    if g != Grounded(aliases, names, n + 1) {
      assert g == names by {
        if g != names { CardinalityGrows(g, names); }
      }
    }
    forall a | a in names - g ensures Mentions(Expansion(aliases, a), names - g) {
      assert !(References(Expansion(aliases, a)) <= g);
      var b :| b in References(Expansion(aliases, a)) && b !in g;
    }
  }

  // ----- runs of the rewriting loop, whichever alias each pass picks -----

  /** What the loop needs of the alias names it may meet. */
  ghost predicate Fit(aliases: Aliases, names: set<string>, path: string) {
    Tidy(names) && Closed(aliases, names) && References(Scan(path)) <= names
  }

  /** Each pass rewrites some alias that the path still mentions. */
  ghost predicate IsRun(aliases: Aliases, path: string, order: seq<string>, result: string)
    decreases |order|
  {
    if order == [] then result == path
    else order[0] in References(Scan(path)) && IsRun(aliases, Rewrite(aliases, path, order[0]), order[1..], result)
  }

  /** What the loop should compute. */
  function Meaning(aliases: Aliases, names: set<string>, path: string): string {
    Render(Full(aliases, Scan(path), |names|))
  }

  lemma RewriteFits(aliases: Aliases, names: set<string>, path: string, name: string)
    requires Fit(aliases, names, path) && name in References(Scan(path))
    ensures Fit(aliases, names, Rewrite(aliases, path, name))
    ensures Scan(Rewrite(aliases, path, name)) == Substitute(Scan(path), name, Expansion(aliases, name))
    ensures References(Scan(Rewrite(aliases, path, name))) == References(Scan(path)) - {name} + References(Expansion(aliases, name))
  {
    ScanRewrite(path, names, name, Query(aliases, name));
    SubstituteReferences(Scan(path), name, Expansion(aliases, name));
  }

  lemma RewriteKeepsMeaning(aliases: Aliases, names: set<string>, path: string, name: string)
    requires Fit(aliases, names, path) && name in References(Scan(path))
    requires References(Scan(path)) <= Grounded(aliases, names, |names|)
    ensures var path' := Rewrite(aliases, path, name);
      && Meaning(aliases, names, path') == Meaning(aliases, names, path)
      && Weight(aliases, Scan(path'), |names|) < Weight(aliases, Scan(path), |names|)
      && References(Scan(path')) <= Grounded(aliases, names, |names|)
  {
    RewriteFits(aliases, names, path, name);
    SubstituteKeeps(aliases, names, Scan(path), name, |names|);
    GroundedGrows(aliases, names, |names| - 1);
  }

  lemma {:induction false} FullOfLiterals(aliases: Aliases, p: seq<Piece>, depth: nat)
    requires References(p) == {}
    ensures Full(aliases, p, depth) == p
  {
    if p != [] {
      ReferencesSplit(p);
      FullOfLiterals(aliases, p[1..], depth);
    }
  }

  /** A path without references means itself. */
  lemma FinishedMeaning(aliases: Aliases, names: set<string>, path: string)
    requires References(Scan(path)) == {}
    ensures Meaning(aliases, names, path) == path
  {
    FullOfLiterals(aliases, Scan(path), |names|);
    RenderScan(path);
  }

  /**
   Order independence: on references that bottom out, every run is bounded by the weight of the
   path, and every run that ends without references ends in full recursive substitution.
   */
  lemma {:induction false} EveryRunComputesMeaning(aliases: Aliases, names: set<string>, path: string, order: seq<string>, result: string)
    requires Fit(aliases, names, path) && References(Scan(path)) <= Grounded(aliases, names, |names|)
    requires IsRun(aliases, path, order, result)
    ensures |order| <= Weight(aliases, Scan(path), |names|)
    ensures References(Scan(result)) == {} ==> result == Meaning(aliases, names, path)
    decreases |order|
  {
    if order == [] {
      if References(Scan(path)) == {} { FinishedMeaning(aliases, names, path); }
    } else {
      RewriteFits(aliases, names, path, order[0]);
      RewriteKeepsMeaning(aliases, names, path, order[0]);
      EveryRunComputesMeaning(aliases, names, Rewrite(aliases, path, order[0]), order[1..], result);
    }
  }

  lemma LoopStaysMentioned(aliases: Aliases, p: seq<Piece>, p': seq<Piece>, loop: set<string>, name: string)
    requires Looping(aliases, loop) && Mentions(p, loop) && name in References(p)
    requires References(p') == References(p) - {name} + References(Expansion(aliases, name))
    ensures Mentions(p', loop)
  {
    var a :| a in loop && a in References(p);
    if a == name {
      var b :| b in loop && b in References(Expansion(aliases, a));
    } else {
      assert a in References(p');
    }
  }

  /** A path that mentions an alias in a loop mentions one after every pass. */
  lemma {:induction false} LoopNeverLeaves(aliases: Aliases, names: set<string>, path: string, loop: set<string>, order: seq<string>, result: string)
    requires Fit(aliases, names, path) && Looping(aliases, loop) && Mentions(Scan(path), loop)
    requires IsRun(aliases, path, order, result)
    ensures Mentions(Scan(result), loop)
    decreases |order|
  {
    if order != [] {
      RewriteFits(aliases, names, path, order[0]);
      LoopStaysMentioned(aliases, Scan(path), Scan(Rewrite(aliases, path, order[0])), loop, order[0]);
      LoopNeverLeaves(aliases, names, Rewrite(aliases, path, order[0]), loop, order[1..], result);
    }
  }

  lemma {:induction false} RunExists(aliases: Aliases, names: set<string>, path: string) returns (order: seq<string>, result: string)
    requires Fit(aliases, names, path) && References(Scan(path)) <= Grounded(aliases, names, |names|)
    ensures IsRun(aliases, path, order, result) && References(Scan(result)) == {}
    decreases Weight(aliases, Scan(path), |names|)
  {
    if References(Scan(path)) == {} {
      order, result := [], path;
    } else {
      var a :| a in References(Scan(path));
      RewriteFits(aliases, names, path, a);
      RewriteKeepsMeaning(aliases, names, path, a);
      var rest;
      rest, result := RunExists(aliases, names, Rewrite(aliases, path, a));
      order := [a] + rest;
    }
  }

  ghost predicate CanFinish(aliases: Aliases, path: string) {
    exists order, result :: IsRun(aliases, path, order, result) && References(Scan(result)) == {}
  }

  ghost predicate CanLoop(aliases: Aliases, path: string) {
    exists loop :: Looping(aliases, loop) && Mentions(Scan(path), loop)
  }

  /** Expansion can finish exactly when the path mentions no alias that can be followed for ever. */
  lemma FinishesIffNoLoop(aliases: Aliases, names: set<string>, path: string)
    requires Fit(aliases, names, path)
    ensures CanFinish(aliases, path) <==> !CanLoop(aliases, path)
    ensures !CanLoop(aliases, path) ==> References(Scan(path)) <= Grounded(aliases, names, |names|)
  {
    if CanFinish(aliases, path) && CanLoop(aliases, path) {
      var order, result :| IsRun(aliases, path, order, result) && References(Scan(result)) == {};
      var loop :| Looping(aliases, loop) && Mentions(Scan(path), loop);
      LoopNeverLeaves(aliases, names, path, loop, order, result);
    }
    if !CanLoop(aliases, path) {
      GroundedOrLooping(aliases, names);
      assert !Mentions(Scan(path), names - Grounded(aliases, names, |names|));
      assert References(Scan(path)) <= Grounded(aliases, names, |names|);
      var order, result := RunExists(aliases, names, path);
    }
  }

  // ----- the loop itself -----

  lemma ReferencesFrom(s: string)
    requires s != ""
    ensures References(Scan(s)) ==
      (if StartsReference(s) then {s[1..HeadLength(s)]} else {}) + References(Scan(s[HeadLength(s)..]))
  {
    ReferencesSplit(Scan(s));
    assert Scan(s)[1..] == Scan(s[HeadLength(s)..]);
  }

  lemma PatternAt(path: string, at: nat)
    requires at < |path| && StartsReference(path[at..])
    ensures var pattern := path[at..][..HeadLength(path[at..])];
      && |pattern| > 1 && pattern == "=" + pattern[1..] && pattern[1..] in References(Scan(path[at..]))
      && at + |pattern| <= |path| && path[at..at + |pattern|] == pattern
  {
    var rest := path[at..];
    ReferencesFrom(rest);
    assert rest[..HeadLength(rest)][1..] == rest[1..HeadLength(rest)];
  }

  /** `g_regex_match` and `g_match_info_fetch`: the text of the leftmost match of `=([^/]+)`, or nothing. */
  method FindReference(path: string) returns (pattern: string, at: nat)
    ensures pattern == "" <==> References(Scan(path)) == {}
    ensures pattern != "" ==> |pattern| > 1 && pattern == "=" + pattern[1..] && pattern[1..] in References(Scan(path))
    ensures pattern != "" ==> at + |pattern| <= |path| && path[at..at + |pattern|] == pattern
    ensures pattern != "" ==> forall k :: 0 <= k < at ==> !StartsReference(path[k..])
  {
    at := 0;
    var rest := path;
    while rest != "" && !StartsReference(rest)
      invariant at <= |path| && rest == path[at..]
      invariant References(Scan(path)) == References(Scan(rest))
      invariant forall k :: 0 <= k < at ==> !StartsReference(path[k..])
      decreases |rest|
    {
      ReferencesFrom(rest);
      at, rest := at + 1, rest[1..];
    }
    if rest == "" {
      pattern := "";
    } else {
      pattern := rest[..HeadLength(rest)];
      PatternAt(path, at);
    }
  }

  /** Runs of slashes become single slashes, as `g_regex_replace_literal` with `/+` leaves them. */
  method CompressSlashes(path: string) returns (compressed: string)
    ensures compressed == Compress(path)
  {
    compressed := "";
    for k := 0 to |path|
      invariant compressed == Compress(path[..k])
    {
      CompressStep(path[..k], path[k]);
      assert path[..k + 1] == path[..k] + [path[k]];
      if !(path[k] == '/' && k > 0 && path[k - 1] == '/') {
        compressed := compressed + [path[k]];
      }
    }
    assert path[..|path|] == path;
  }

  function Compress(s: string): string {
    if s == "" then ""
    else if |s| > 1 && s[0] == '/' && s[1] == '/' then Compress(s[1..])
    else [s[0]] + Compress(s[1..])
  }

  lemma {:induction false} CompressStep(s: string, c: char)
    ensures Compress(s + [c]) == Compress(s) + if c == '/' && s != "" && s[|s| - 1] == '/' then "" else [c]
  {
    if s != "" {
      assert (s + [c])[1..] == s[1..] + [c];
      CompressStep(s[1..], c);
    }
  }

  /** A compressed path holds no empty token, and compressing again changes nothing. */
  lemma {:induction false} CompressNormal(s: string)
    ensures forall k :: 0 < k < |Compress(s)| ==> !(Compress(s)[k - 1] == '/' && Compress(s)[k] == '/')
    ensures s != "" ==> Compress(s) != "" && Compress(s)[0] == s[0]
    ensures Compress(Compress(s)) == Compress(s)
  {
    if s != "" {
      CompressNormal(s[1..]);
    }
  }

  /** The loop invariant: what is left to expand still means what the path meant. */
  ghost predicate Underway(aliases: Aliases, names: set<string>, path: string, current: string) {
    && Fit(aliases, names, current)
    && References(Scan(current)) <= Grounded(aliases, names, |names|)
    && Meaning(aliases, names, current) == Meaning(aliases, names, path)
  }

  lemma PassKeeps(aliases: Aliases, names: set<string>, path: string, current: string, name: string)
    requires Underway(aliases, names, path, current) && name in References(Scan(current))
    ensures Underway(aliases, names, path, Rewrite(aliases, current, name))
    ensures Weight(aliases, Scan(Rewrite(aliases, current, name)), |names|) < Weight(aliases, Scan(current), |names|)
  {
    RewriteFits(aliases, names, current, name);
    RewriteKeepsMeaning(aliases, names, current, name);
  }

  /** `tagsistant_expand_path`: rewrite the leftmost alias until none is left. */
  method ExpandPath(aliases: Aliases, path: string, ghost names: set<string>) returns (expanded: string)
    requires Fit(aliases, names, path) && !CanLoop(aliases, path)
    ensures expanded == Compress(Meaning(aliases, names, path))
  {
    expanded := path;
    FinishesIffNoLoop(aliases, names, path);
    var pattern, at := FindReference(expanded);
    while pattern != ""
      invariant Underway(aliases, names, path, expanded)
      invariant pattern == "" <==> References(Scan(expanded)) == {}
      invariant pattern != "" ==> pattern == "=" + pattern[1..] && pattern[1..] in References(Scan(expanded))
      decreases Weight(aliases, Scan(expanded), |names|)
    {
      PassKeeps(aliases, names, path, expanded, pattern[1..]);
      expanded := ReplaceAll(expanded, pattern, Query(aliases, pattern[1..]));
      pattern, at := FindReference(expanded);
    }
    FinishedMeaning(aliases, names, expanded);
    expanded := CompressSlashes(expanded);
  }

  lemma ScanLiteral(c: char, s: string)
    requires c != '='
    ensures Scan([c] + s) == [Literal(c)] + Scan(s)
  {
    assert ([c] + s)[1..] == s;
  }

  lemma {:induction false} NoReferences(s: string)
    requires '=' !in s
    ensures References(Scan(s)) == {}
  {
    if s != "" {
      assert s[0] in s && forall c :: c in s[1..] ==> c in s;
      NoReferences(s[1..]);
      ReferencesSplit(Scan(s));
      assert Scan(s)[1..] == Scan(s[1..]) && Scan(s)[0] == Literal(s[0]);
    }
  }

  /** A path of two aliases. */
  function Two(a: string, b: string): string {
    "=" + a + ("/" + ("=" + b))
  }

  lemma ScanTwo(a: string, b: string)
    requires Plain(a) && Plain(b)
    ensures Scan(Two(a, b)) == [Reference(a)] + ([Literal('/')] + [Reference(b)])
  {
    ScanOne(a);
    ScanOne(b);
    ScanLiteral('/', "=" + b);
    ScanAppend("=" + a, "/" + ("=" + b));
  }

  lemma ReplaceFirst(pattern: string, suffix: string, text: string)
    requires pattern != "" && pattern[0] == '=' && '=' !in suffix
    ensures ReplaceAll(pattern + suffix, pattern, text) == text + suffix
  {
    NoEquals(suffix, pattern);
    UnchangedIff(suffix, pattern, text);
    assert (pattern + suffix)[|pattern|..] == suffix;
  }

  lemma RewriteLonger(a: string, b: string, text: string)
    requires Plain(a) && Plain(b) && a < b
    ensures ReplaceAll("=" + b, "=" + a, text) == text + b[|a|..]
  {
    assert forall c :: c in b[|a|..] ==> c in b;
    ReplaceFirst("=" + a, b[|a|..], text);
    assert "=" + b == "=" + a + b[|a|..];
  }

  lemma RewriteTwo(a: string, b: string, text: string)
    requires Plain(a) && Plain(b) && a < b
    ensures ReplaceAll(Two(a, b), "=" + a, text) == text + ("/" + (text + b[|a|..]))
  {
    var pattern, tail := "=" + a, "/" + ("=" + b);
    assert '/' !in pattern;
    ReplaceSplits(pattern, tail, pattern, text);
    ReplaceWhole(pattern, text);
    RewriteLonger(a, b, text);
    assert tail[1..] == "=" + b && !(pattern <= tail);
  }

  lemma MeaningOfTwo(aliases: Aliases, a: string, b: string)
    requires Plain(a) && Plain(b) && a != b && '=' !in Query(aliases, a) && '=' !in Query(aliases, b)
    ensures Meaning(aliases, {a, b}, Two(a, b)) == Query(aliases, a) + ("/" + Query(aliases, b))
  {
    var p, q := Expansion(aliases, a), Expansion(aliases, b);
    ScanTwo(a, b);
    NoReferences(Query(aliases, a));
    NoReferences(Query(aliases, b));
    FullOfLiterals(aliases, p, 1);
    FullOfLiterals(aliases, q, 1);
    FullOfOne(aliases, Reference(a), 2);
    FullOfOne(aliases, Literal('/'), 2);
    FullOfOne(aliases, Reference(b), 2);
    FullAppend(aliases, [Literal('/')], [Reference(b)], 2);
    FullAppend(aliases, [Reference(a)], [Literal('/')] + [Reference(b)], 2);
    RenderAppend([Literal('/')], q);
    RenderAppend(p, [Literal('/')] + q);
    RenderScan(Query(aliases, a));
    RenderScan(Query(aliases, b));
    assert Render([Literal('/')][1..]) == "" && |{a, b}| == 2;
  }

  lemma FullOfOne(aliases: Aliases, piece: Piece, depth: nat)
    ensures Full(aliases, [piece], depth) == FullPiece(aliases, piece, depth)
  {
    assert Full(aliases, [piece][1..], depth) == [];
  }

  /**
   Why no name may be a prefix of another: on `=a/=ab` the first pass, on the leftmost alias, also
   rewrites the head of `=ab`.  The loop then ends with the path that is meant only if the longer
   alias happens to stand for the text of the shorter one with the rest of its own name.
   */
  lemma PrefixNamesMisfireIff(aliases: Aliases, a: string, b: string)
    requires Plain(a) && Plain(b) && a < b && '=' !in Query(aliases, a) && '=' !in Query(aliases, b)
    ensures var result := Query(aliases, a) + ("/" + (Query(aliases, a) + b[|a|..]));
      && IsRun(aliases, Two(a, b), [a], result) && References(Scan(result)) == {}
      && (result == Meaning(aliases, {a, b}, Two(a, b)) <==> Query(aliases, b) == Query(aliases, a) + b[|a|..])
  {
    var text := Query(aliases, a);
    var result := text + ("/" + (text + b[|a|..]));
    ScanTwo(a, b);
    assert Scan(Two(a, b))[0] == Reference(a);
    RewriteTwo(a, b, text);
    assert IsRun(aliases, result, [a][1..], result);
    MeaningOfTwo(aliases, a, b);
    assert forall c :: c in b[|a|..] ==> c in b;
    NoReferences(result);
    CutAlike(text, "/" + (text + b[|a|..]), text, "/" + Query(aliases, b));
    CutAlike("/", text + b[|a|..], "/", Query(aliases, b));
  }

  /** Such a pair: with `=a` for `t` and `=ab` for `u`, the path `=a/=ab` becomes `t/tb` instead of `t/u`. */
  lemma PrefixNamesMisfire()
    ensures var aliases, path := map["a" := "t", "ab" := "u"], Two("a", "ab");
      && IsRun(aliases, path, ["a"], "t" + ("/" + ("t" + "b"))) && References(Scan("t" + ("/" + ("t" + "b")))) == {}
      && Meaning(aliases, {"a", "ab"}, path) == "t" + ("/" + "u") != "t" + ("/" + ("t" + "b"))
  {
    var aliases := map["a" := "t", "ab" := "u"];
    assert "ab"[1..] == "b";
    PrefixNamesMisfireIff(aliases, "a", "ab");
    MeaningOfTwo(aliases, "a", "ab");
  }

  // ----- single references, and what slashes separate -----

  /** An alias that is not in the table vanishes from the path. */
  lemma UnknownVanishes(aliases: Aliases, name: string)
    requires Plain(name) && name !in aliases
    ensures Meaning(aliases, {name}, "=" + name) == ""
  {
    ScanOne(name);
    assert Scan("") == [] && Full(aliases, [], 0) == [];
    assert Full(aliases, [Reference(name)][1..], 1) == [];
    assert Full(aliases, [Reference(name)], 1) == Full(aliases, Scan(""), 0) + [];
  }

  /** One that is in the table stands for its query. */
  lemma KnownStands(aliases: Aliases, name: string)
    requires Plain(name) && name in aliases && '=' !in aliases[name]
    ensures Meaning(aliases, {name}, "=" + name) == aliases[name]
  {
    ScanOne(name);
    NoReferences(aliases[name]);
    FullOfLiterals(aliases, Scan(aliases[name]), 0);
    FullOfOne(aliases, Reference(name), 1);
    RenderScan(aliases[name]);
  }

  /** The elements of a path: what its slashes separate. */
  function Elements(s: string): seq<string> {
    if s == "" then []
    else if s[0] == '/' then Elements(s[1..])
    else [s[..Run(s)]] + Elements(s[Run(s)..])
  }

  lemma {:induction false} CompressRun(s: string)
    ensures Run(Compress(s)) == Run(s) && Compress(s)[..Run(s)] == s[..Run(s)]
    ensures Compress(s)[Run(s)..] == Compress(s[Run(s)..])
  {
    if s != "" && s[0] != '/' {
      CompressRun(s[1..]);
      assert Compress(s) == [s[0]] + Compress(s[1..]);
      assert Compress(s)[1..] == Compress(s[1..]);
    } else {
      CompressNormal(s);
      assert s[0..] == s && Compress(s)[0..] == Compress(s);
    }
  }

  lemma ElementsOfRun(s: string)
    requires s != "" && s[0] != '/'
    ensures Compress(s) != "" && Compress(s)[0] != '/'
    ensures Elements(Compress(s)) == [s[..Run(s)]] + Elements(Compress(s[Run(s)..]))
  {
    CompressRun(s);
    CompressNormal(s);
  }

  lemma ElementsOfSlash(s: string)
    requires s != "" && s[0] == '/'
    ensures Elements(Compress(s)) == Elements(Compress(s[1..]))
  {
    if !(|s| > 1 && s[1] == '/') {
      assert Compress(s)[1..] == Compress(s[1..]);
    }
  }

  /** Compressing a path keeps its elements. */
  lemma {:induction false} CompressKeepsElements(s: string)
    ensures Elements(Compress(s)) == Elements(s)
  {
    if s != "" {
      if s[0] == '/' {
        ElementsOfSlash(s);
        CompressKeepsElements(s[1..]);
      } else {
        ElementsOfRun(s);
        CompressKeepsElements(s[Run(s)..]);
      }
    }
  }

  /** It still begins and ends with a slash if it did before. */
  lemma {:induction false} CompressKeepsEnds(s: string)
    requires s != ""
    ensures Compress(s) != "" && Compress(s)[0] == s[0] && Compress(s)[|Compress(s)| - 1] == s[|s| - 1]
  {
    CompressNormal(s);
    if |s| > 1 {
      CompressKeepsEnds(s[1..]);
    }
  }
}
