/** The name→table dictionary built by the upload loop. A Python dict keeps
    insertion order and assigning to an existing key keeps that key's place,
    so the collection is the sequence of its entries in that order. */
module Collection {
  import opened Wrappers
  import opened Seqs
  import opened Tables

  datatype Entry = Entry(name: string, table: Table)

  type TableCollection = seq<Entry>

  /** The keys, in iteration order. */
  function Names(c: TableCollection): seq<string> {
    seq(|c|, i requires 0 <= i < |c| => c[i].name)
  }

  predicate ValidCollection(c: TableCollection) {
    forall i :: 0 <= i < |c| ==> Valid(c[i].table)
  }

  /** The table stored under `name`, or None when the key is absent. */
  function Get(c: TableCollection, name: string): Option<Table> {
    if c == [] then None
    else if c[0].name == name then Some(c[0].table)
    else Get(c[1..], name)
  }

  /** The keys of a non-empty collection: the first entry's key, then the rest. */
  lemma NamesCons(c: TableCollection)
    requires c != []
    ensures Names(c) == [c[0].name] + Names(c[1..])
  {
    assert forall i :: 1 <= i < |c| ==> c[i] == c[1..][i - 1];
  }

  /** A lookup succeeds exactly when the key is present, and then returns the table
      of an entry with that key. */
  lemma {:induction false} GetFound(c: TableCollection, name: string)
    ensures Get(c, name).Some? <==> name in Names(c)
    ensures Get(c, name).Some? ==> Entry(name, Get(c, name).value) in c
  {
    if c != [] {
      NamesCons(c);
      if c[0].name != name {
        GetFound(c[1..], name);
      }
    }
  }

  /** Assignment of `t` to key `name`: replaces the value in place when the key exists, appends otherwise. */
  function Put(c: TableCollection, name: string, t: Table): (r: TableCollection)
    ensures Get(r, name) == Some(t)
  {
    if c == [] then [Entry(name, t)]
    else if c[0].name == name then [Entry(name, t)] + c[1..]
    else
      var rest := Put(c[1..], name, t);
      var r := [c[0]] + rest;
      assert r[1..] == rest;
      r
  }

  /** An existing key keeps its place; a new key goes last. */
  lemma {:induction false} PutNames(c: TableCollection, name: string, t: Table)
    ensures Names(Put(c, name, t)) == if name in Names(c) then Names(c) else Names(c) + [name]
  {
    var r := Put(c, name, t);
    if c == [] {
      assert Names(r) == [name];
    } else {
      NamesCons(c);
      NamesCons(r);
      if c[0].name != name {
        PutNames(c[1..], name, t);
        assert r[1..] == Put(c[1..], name, t);
      } else {
        assert r[1..] == c[1..];
      }
    }
  }

  /** Assignment to one key leaves every other key's lookup as it was. */
  lemma {:induction false} PutOtherKey(c: TableCollection, name: string, t: Table, m: string)
    requires m != name
    ensures Get(Put(c, name, t), m) == Get(c, m)
  {
    if c != [] && c[0].name != name {
      PutOtherKey(c[1..], name, t, m);
    }
  }

  /** Assignment never introduces a duplicate key. */
  lemma PutKeepsDistinct(c: TableCollection, name: string, t: Table)
    requires Distinct(Names(c))
    ensures Distinct(Names(Put(c, name, t)))
  {
    PutNames(c, name, t);
    if name !in Names(c) {
      DistinctAppend(Names(c), name);
    }
  }

  /** Assignment of a rectangular table keeps every table rectangular. */
  lemma {:induction false} PutKeepsValid(c: TableCollection, name: string, t: Table)
    requires ValidCollection(c) && Valid(t)
    ensures ValidCollection(Put(c, name, t))
  {
    if c != [] && c[0].name != name {
      PutKeepsValid(c[1..], name, t);
    }
  }
}
