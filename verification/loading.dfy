/** The upload loop: each uploaded file, in upload order, is checked against the
    expected names; an accepted file whose sheet parses is stored under its name,
    a failed parse is reported and skipped, and an unknown name is ignored. */
module Loading {
  import opened Wrappers
  import opened Seqs
  import opened Tables
  import opened Collection
  import opened FileNames

  /** What the spreadsheet parser made of an upload's bytes. */
  datatype ParseOutcome = Parsed(table: Table) | ParseFailed(cause: string)

  datatype Upload = Upload(name: string, content: ParseOutcome)

  /** Which of the three per-file messages an upload draws. */
  datatype Status = Loaded | ReadError(cause: string) | Ignored

  function Classify(u: Upload): (s: Status)
    ensures s == Ignored <==> !IsExpected(u.name)
    ensures s == Loaded <==> IsExpected(u.name) && u.content.Parsed?
    ensures s.ReadError? ==> u.content == ParseFailed(s.cause)
  {
    if IsExpected(u.name) then
      match u.content
      case Parsed(_) => Loaded
      case ParseFailed(e) => ReadError(e)
    else Ignored
  }

  /** One pass of the loop body. */
  function LoadStep(c: TableCollection, u: Upload): (r: TableCollection)
    ensures Classify(u) != Loaded ==> r == c
    ensures Classify(u) == Loaded ==> Get(r, u.name) == Some(u.content.table)
  {
    if IsExpected(u.name) then
      match u.content
      case Parsed(t) => Put(c, u.name, t)
      case ParseFailed(_) => c
    else c
  }

  /** The dictionary after the loop, which starts from an empty dictionary:
      the uploads are processed first to last. */
  function Load(us: seq<Upload>): (c: TableCollection)
    decreases |us|
  {
    if us == [] then [] else LoadStep(Load(us[..|us| - 1]), us[|us| - 1])
  }

  /** The table of the last upload named `name` that parsed, if any. */
  function LastParsed(us: seq<Upload>, name: string): Option<Table>
    decreases |us|
  {
    if us == [] then None
    else
      var u := us[|us| - 1];
      if u.name == name && u.content.Parsed? then Some(u.content.table)
      else LastParsed(us[..|us| - 1], name)
  }

  /** The accepted, successfully parsed upload names, in upload order, repeats included. */
  function LoadedNames(us: seq<Upload>): seq<string>
    decreases |us|
  {
    if us == [] then []
    else
      var u := us[|us| - 1];
      LoadedNames(us[..|us| - 1]) + if Classify(u) == Loaded then [u.name] else []
  }

  /** First occurrences of `s`, in order. */
  function Dedup(s: seq<string>): (d: seq<string>)
    ensures Distinct(d)
    ensures forall x :: x in d <==> x in s
    decreases |s|
  {
    if s == [] then []
    else
      var d := Dedup(s[..|s| - 1]);
      var x := s[|s| - 1];
      assert s == s[..|s| - 1] + [x];
      if x in d then d else d + [x]
  }

  /** One upload changes at most the entry under its own name. */
  lemma LoadStepFrame(c: TableCollection, u: Upload, m: string)
    ensures m != u.name ==> Get(LoadStep(c, u), m) == Get(c, m)
  {
    if Classify(u) == Loaded && m != u.name {
      PutOtherKey(c, u.name, u.content.table, m);
    }
  }

  /** The lookup of any name after loading: nothing for an unexpected name,
      otherwise the table of the last successful parse under that name. */
  lemma {:induction false} LoadLookup(us: seq<Upload>, name: string)
    ensures Get(Load(us), name) == if IsExpected(name) then LastParsed(us, name) else None
    decreases |us|
  {
    if us != [] {
      var u := us[|us| - 1];
      LoadLookup(us[..|us| - 1], name);
      LoadStepFrame(Load(us[..|us| - 1]), u, name);
    }
  }

  /** `i` is the last upload that parsed under `name`. */
  predicate IsLastParse(us: seq<Upload>, name: string, i: nat) {
    && i < |us|
    && us[i].name == name
    && us[i].content.Parsed?
    && forall j :: i < j < |us| ==> !(us[j].name == name && us[j].content.Parsed?)
  }

  lemma {:induction false} LastParsedIsLast(us: seq<Upload>, name: string, i: nat)
    requires IsLastParse(us, name, i)
    ensures LastParsed(us, name) == Some(us[i].content.table)
    decreases |us|
  {
    if i < |us| - 1 {
      LastParsedIsLast(us[..|us| - 1], name, i);
    }
  }

  lemma {:induction false} LastParsedNone(us: seq<Upload>, name: string)
    ensures LastParsed(us, name) == None <==>
      forall i :: 0 <= i < |us| ==> !(us[i].name == name && us[i].content.Parsed?)
    decreases |us|
  {
    if us != [] {
      LastParsedNone(us[..|us| - 1], name);
    }
  }

  /** Repeated uploads of an accepted name: the last successful parse wins. */
  lemma LoadKeepsLastParse(us: seq<Upload>, name: string, i: nat)
    requires IsExpected(name)
    requires IsLastParse(us, name, i)
    ensures Get(Load(us), name) == Some(us[i].content.table)
  {
    LoadLookup(us, name);
    LastParsedIsLast(us, name, i);
  }

  /** Some upload named `name` parsed. */
  predicate EverParsed(us: seq<Upload>, name: string) {
    exists i :: 0 <= i < |us| && us[i].name == name && us[i].content.Parsed?
  }

  /** The keys after loading are exactly the accepted names with at least one successful parse. */
  lemma LoadKeys(us: seq<Upload>, name: string)
    ensures name in Names(Load(us)) <==> IsExpected(name) && EverParsed(us, name)
  {
    LoadLookup(us, name);
    LastParsedNone(us, name);
    GetFound(Load(us), name);
  }

  /** Keys appear in the order of their first successful load, each once. */
  lemma {:induction false} LoadNamesOrder(us: seq<Upload>)
    ensures Names(Load(us)) == Dedup(LoadedNames(us))
    decreases |us|
  {
    if us != [] {
      var init := us[..|us| - 1];
      var u := us[|us| - 1];
      LoadNamesOrder(init);
      if Classify(u) == Loaded {
        PutNames(Load(init), u.name, u.content.table);
        assert LoadedNames(us) == LoadedNames(init) + [u.name];
        assert LoadedNames(us)[..|LoadedNames(us)| - 1] == LoadedNames(init);
      } else {
        assert LoadedNames(us) == LoadedNames(init);
        assert Load(us) == LoadStep(Load(init), u) == Load(init);
      }
    }
  }

  /** Every table the loop stores came from the parser, so rectangular input tables
      give a collection of rectangular tables. */
  lemma {:induction false} LoadValid(us: seq<Upload>)
    requires forall i :: 0 <= i < |us| && us[i].content.Parsed? ==> Valid(us[i].content.table)
    ensures ValidCollection(Load(us))
    decreases |us|
  {
    if us != [] {
      var u := us[|us| - 1];
      LoadValid(us[..|us| - 1]);
      if Classify(u) == Loaded {
        PutKeepsValid(Load(us[..|us| - 1]), u.name, u.content.table);
      }
    }
  }
}
