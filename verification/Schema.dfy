/** Vocabulary shared by the tables, the query compiler and the reasoner. */
module Schema {
  type Inode = nat
  type TagId = nat

  datatype Option<T> = None | Some(value: T)

  /** The relations a row of `relations` may hold (src/path_resolution.h:33, 316-319). */
  datatype Kind = Includes | Excludes | IsEquivalent

  datatype Relation = Relation(tag1: TagId, kind: Kind, tag2: TagId)

  /**
   A namespace, the name of a triple tag, ends with a colon (src/tagsistant.h:91); the expression passes
   over a final newline.
   */
  predicate IsNamespace(name: string) {
    || (name != "" && name[|name| - 1] == ':')
    || (|name| > 1 && name[|name| - 1] == '\n' && name[|name| - 2] == ':')
  }

  lemma NamespaceIff(name: string)
    ensures IsNamespace(name) <==> exists p :: name == p + ":" || name == p + ":\n"
  {
    if IsNamespace(name) {
      if name[|name| - 1] == ':' {
        assert name == name[..|name| - 1] + ":";
      } else {
        assert name == name[..|name| - 2] + ":\n";
      }
    }
  }

  lemma Regroup<T>(a: seq<T>, b: seq<T>, c: seq<T>)
    ensures a + b + c == a + (b + c)
  {
  }
}
