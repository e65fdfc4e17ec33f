/** The key of the tag-id cache, `tagsistant_make_tag_key` (src/sql.h:118). */
module TagKey {
  const SEPARATOR := "<separator>"

  /** A row of `tags`: a flat tag has neither key nor value, a triple tag has a namespace for name. */
  datatype Tag = Tag(name: string, key: string, value: string)

  function CacheKey(t: Tag): string {
    t.name + SEPARATOR + t.key + SEPARATOR + t.value
  }

  ghost predicate OccursAt(s: string, at: nat) {
    at + |SEPARATOR| <= |s| && s[at..at + |SEPARATOR|] == SEPARATOR
  }

  /** A text in which the separator does not occur. */
  ghost predicate Clean(s: string) {
    forall at: nat :: !OccursAt(s, at)
  }

  /** The separator, written out. */
  lemma CleanIff(s: string)
    ensures Clean(s) <==> forall a, b :: s != a + "<separator>" + b
  {
    if !Clean(s) {
      var at: nat :| OccursAt(s, at);
      assert s == s[..at] + "<separator>" + s[at + |SEPARATOR|..];
    }
    if a, b :| s == a + "<separator>" + b {
      assert s[|a|..|a| + |SEPARATOR|] == SEPARATOR;
      assert OccursAt(s, |a|);
    }
  }

  ghost predicate CleanTag(t: Tag) {
    Clean(t.name) && Clean(t.key) && Clean(t.value)
  }

  /** The separator overlaps neither itself nor a boundary, so it first occurs where a clean head ends. */
  lemma NoOccurrenceBefore(head: string, tail: string, at: nat)
    requires Clean(head) && at < |head|
    ensures !OccursAt(head + SEPARATOR + tail, at)
  {
    var s := head + SEPARATOR + tail;
    if at + |SEPARATOR| <= |head| {
      assert s[at..at + |SEPARATOR|] == head[at..at + |SEPARATOR|];
      assert !OccursAt(head, at);
    } else {
      var k := |head| - at;
      assert s[|head|] == '<' && SEPARATOR[k] != '<';
      assert at + |SEPARATOR| <= |s| ==> s[at..at + |SEPARATOR|][k] == s[|head|];
    }
  }

  /** Past a clean head the separator occurs once right away, and then only where it does in the tail. */
  lemma OccursAfter(head: string, tail: string, at: nat)
    requires Clean(head) && OccursAt(head + SEPARATOR + tail, at)
    ensures at == |head| || (at >= |head| + |SEPARATOR| && OccursAt(tail, at - |head| - |SEPARATOR|))
  {
    var s := head + SEPARATOR + tail;
    if at < |head| {
      NoOccurrenceBefore(head, tail, at);
    } else if at < |head| + |SEPARATOR| {
      assert s[at] == s[at..at + |SEPARATOR|][0] == '<' && s[at] == SEPARATOR[at - |head|];
    } else {
      var start := |head| + |SEPARATOR|;
      assert s[start..] == tail;
      assert tail[at - start..at - start + |SEPARATOR|] == s[at..at + |SEPARATOR|];
    }
  }

  /** The separator occurs twice in the key of a clean tag. */
  lemma OccursTwice(t: Tag, at: nat)
    requires CleanTag(t) && OccursAt(CacheKey(t), at)
    ensures at == |t.name| || at == |t.name| + |SEPARATOR| + |t.key|
  {
    var rest := t.key + SEPARATOR + t.value;
    assert CacheKey(t) == t.name + SEPARATOR + rest;
    OccursAfter(t.name, rest, at);
    if at != |t.name| {
      OccursAfter(t.key, t.value, at - |t.name| - |SEPARATOR|);
    }
  }

  lemma CutTwice(t: Tag)
    ensures var key, first, second := CacheKey(t), |t.name|, |t.name| + |SEPARATOR| + |t.key|;
      && OccursAt(key, first) && OccursAt(key, second)
      && t == Tag(key[..first], key[first + |SEPARATOR|..second], key[second + |SEPARATOR|..])
  {
  }

  /** The key of a clean tag is no other tag's, clean or not. */
  lemma CacheKeyInjective(t: Tag, u: Tag)
    requires CleanTag(t) && CacheKey(t) == CacheKey(u)
    ensures t == u
  {
    CutTwice(t);
    CutTwice(u);
    OccursTwice(t, |u.name|);
    OccursTwice(t, |u.name| + |SEPARATOR| + |u.key|);
  }

  lemma SplitUnclean(s: string) returns (a: string, b: string)
    requires !Clean(s)
    ensures s == a + SEPARATOR + b
  {
    var at: nat :| OccursAt(s, at);
    a, b := s[..at], s[at + |SEPARATOR|..];
  }

  lemma CutName(a: string, b: string, key: string, value: string)
    ensures CacheKey(Tag(a, b, key + SEPARATOR + value)) == CacheKey(Tag(a + SEPARATOR + b, key, value))
  {
  }

  lemma CutKey(name: string, a: string, b: string, value: string)
    ensures CacheKey(Tag(name + SEPARATOR + a, b, value)) == CacheKey(Tag(name, a + SEPARATOR + b, value))
  {
  }

  lemma CutValue(name: string, key: string, a: string, b: string)
    ensures CacheKey(Tag(name + SEPARATOR + key, a, b)) == CacheKey(Tag(name, key, a + SEPARATOR + b))
  {
  }

  /** A component with the separator in it can be cut elsewhere. */
  lemma UncleanKeyIsShared(t: Tag) returns (u: Tag)
    requires !CleanTag(t)
    ensures u != t && CacheKey(u) == CacheKey(t) && |u.name| != |t.name|
  {
    if !Clean(t.name) {
      var a, b := SplitUnclean(t.name);
      u := Tag(a, b, t.key + SEPARATOR + t.value);
      CutName(a, b, t.key, t.value);
    } else if !Clean(t.key) {
      var a, b := SplitUnclean(t.key);
      u := Tag(t.name + SEPARATOR + a, b, t.value);
      CutKey(t.name, a, b, t.value);
    } else {
      var a, b := SplitUnclean(t.value);
      u := Tag(t.name + SEPARATOR + t.key, a, b);
      CutValue(t.name, t.key, a, b);
    }
  }

  /** A tag shares its key with no other exactly when its components are clean. */
  lemma CleanIffKeyIsOwn(t: Tag)
    ensures CleanTag(t) <==> forall u :: CacheKey(u) == CacheKey(t) ==> u == t
  {
    if CleanTag(t) {
      forall u | CacheKey(u) == CacheKey(t) ensures u == t {
        CacheKeyInjective(t, u);
      }
    } else {
      var u := UncleanKeyIsShared(t);
    }
  }

  lemma CacheKeyIs(name: string, key: string, value: string)
    ensures CacheKey(Tag(name, key, value)) == name + "<separator>" + key + "<separator>" + value
  {
  }

  /** Why the components must be clean: a flat tag and a triple tag that share a key. */
  lemma UncleanKeysCollide()
    ensures var flat, triple := Tag("n:" + SEPARATOR + "k", "", ""), Tag("n:", "k", SEPARATOR);
      flat != triple && CacheKey(flat) == CacheKey(triple)
  {
    var flat, triple := Tag("n:" + SEPARATOR + "k", "", ""), Tag("n:", "k", SEPARATOR);
    assert CacheKey(flat) == "n:" + SEPARATOR + "k" + SEPARATOR + SEPARATOR;
    assert |flat.name| != |triple.name|;
  }
}
