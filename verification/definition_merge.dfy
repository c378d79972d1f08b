/**
 The deduplicating union of reflected definitions into the global table: a name the table
 already holds keeps its definition, a new name is copied across (the first writer wins).
 */
module DefinitionMerge {
  import opened JsonSchema

  /** `table` after every definition of `incoming` has been inserted if absent. */
  function Merged(table: Definitions, incoming: Definitions): (r: Definitions)
    ensures r.Keys == table.Keys + incoming.Keys
    ensures forall name :: name in table ==> r[name] == table[name]
    ensures forall name :: name in incoming && name !in table ==> r[name] == incoming[name]
  {
    incoming + table
  }

  /** `table` after the definitions of each fragment have been merged, in list order. */
  function MergeAll(table: Definitions, fragments: seq<Fragment>): Definitions
    decreases |fragments|
  {
    if fragments == [] then table
    else
      var n := |fragments| - 1;
      Merged(MergeAll(table, fragments[..n]), fragments[n].definitions)
  }

  /** Every name that at least one of the fragments defines. */
  function DefinedNames(fragments: seq<Fragment>): set<string>
    decreases |fragments|
  {
    if fragments == [] then {}
    else
      var n := |fragments| - 1;
      DefinedNames(fragments[..n]) + fragments[n].definitions.Keys
  }

  /** A name is defined by the fragments exactly when one of them defines it. */
  lemma {:induction false} DefinedNamesAt(fragments: seq<Fragment>, name: string)
    ensures name in DefinedNames(fragments) <==>
            exists i :: 0 <= i < |fragments| && name in fragments[i].definitions
    decreases |fragments|
  {
    if fragments != [] {
      var n := |fragments| - 1;
      DefinedNamesAt(fragments[..n], name);
      if name in DefinedNames(fragments[..n]) {
        var i :| 0 <= i < n && name in fragments[..n][i].definitions;
        assert name in fragments[i].definitions;
      }
      if exists i :: 0 <= i < |fragments| && name in fragments[i].definitions {
        var i :| 0 <= i < |fragments| && name in fragments[i].definitions;
        if i < n {
          assert name in fragments[..n][i].definitions;
        }
      }
    }
  }

  /** The merged table holds exactly the old names and every name a fragment defines. */
  lemma {:induction false} MergeAllKeys(table: Definitions, fragments: seq<Fragment>)
    ensures MergeAll(table, fragments).Keys == table.Keys + DefinedNames(fragments)
    decreases |fragments|
  {
    if fragments != [] {
      MergeAllKeys(table, fragments[..|fragments| - 1]);
    }
  }

  /** A name already in the table keeps its definition through any number of merges. */
  lemma {:induction false} MergeAllKeepsExisting(table: Definitions, fragments: seq<Fragment>, name: string)
    requires name in table
    ensures name in MergeAll(table, fragments)
    ensures MergeAll(table, fragments)[name] == table[name]
    decreases |fragments|
  {
    if fragments != [] {
      MergeAllKeepsExisting(table, fragments[..|fragments| - 1], name);
    }
  }

  /**
   A name absent from the table ends up bound to the definition of the FIRST fragment
   that defines it; later fragments defining the same name are discarded.
   */
  lemma {:induction false} MergeAllFirstWriterWins(table: Definitions, fragments: seq<Fragment>, name: string, j: nat)
    requires name !in table
    requires j < |fragments| && name in fragments[j].definitions
    requires forall i :: 0 <= i < j ==> name !in fragments[i].definitions
    ensures name in MergeAll(table, fragments)
    ensures MergeAll(table, fragments)[name] == fragments[j].definitions[name]
    decreases |fragments|
  {
    var n := |fragments| - 1;
    if j == n {
      MergeAllKeys(table, fragments[..n]);
      DefinedNamesAt(fragments[..n], name);
      assert name !in MergeAll(table, fragments[..n]) by {
        forall i | 0 <= i < n ensures name !in fragments[..n][i].definitions {
          assert fragments[..n][i] == fragments[i];
        }
      }
    } else {
      var prefix := fragments[..n];
      assert prefix[j] == fragments[j];
      forall i | 0 <= i < j ensures name !in prefix[i].definitions {
        assert prefix[i] == fragments[i];
      }
      MergeAllFirstWriterWins(table, prefix, name, j);
    }
  }

  /** Merging a list that is split in two is merging the first part, then the second. */
  lemma {:induction false} MergeAllAppend(table: Definitions, first: seq<Fragment>, second: seq<Fragment>)
    ensures MergeAll(table, first + second) == MergeAll(MergeAll(table, first), second)
    decreases |second|
  {
    if second == [] {
      assert first + second == first;
    } else {
      var n := |second| - 1;
      assert (first + second)[..|first| + n] == first + second[..n];
      assert (first + second)[|first| + n] == second[n];
      MergeAllAppend(table, first, second[..n]);
    }
  }

  /** Merging into a table that already holds every incoming name changes nothing. */
  lemma MergeAllNothingNew(table: Definitions, fragments: seq<Fragment>)
    requires DefinedNames(fragments) <= table.Keys
    ensures MergeAll(table, fragments) == table
  {
    var r := MergeAll(table, fragments);
    MergeAllKeys(table, fragments);
    forall name | name in table ensures r[name] == table[name] {
      MergeAllKeepsExisting(table, fragments, name);
    }
  }

  /** Merging the same fragments a second time yields the table of merging them once. */
  lemma MergeAllIdempotent(table: Definitions, fragments: seq<Fragment>)
    ensures MergeAll(MergeAll(table, fragments), fragments) == MergeAll(table, fragments)
  {
    MergeAllKeys(table, fragments);
    MergeAllNothingNew(MergeAll(table, fragments), fragments);
  }

  /**
   Replacing the definition of a name that is already in the table commutes with merging:
   no fragment can overwrite it.
   */
  lemma {:induction false} MergeAllUpdateExisting(table: Definitions, fragments: seq<Fragment>, name: string, def: SchemaType)
    requires name in table
    ensures MergeAll(table[name := def], fragments) == MergeAll(table, fragments)[name := def]
    decreases |fragments|
  {
    if fragments != [] {
      var n := |fragments| - 1;
      MergeAllUpdateExisting(table, fragments[..n], name, def);
      MergeAllKeepsExisting(table, fragments[..n], name);
    }
  }
}
