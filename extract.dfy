/**
  The block extractor (`create_dict_object`): one pass over the raw
  configuration lines that records, for each network object and each network
  object-group, the child lines of its first declaration.

  The child lines come from the hierarchical configuration parser, which is
  not part of this model: it is the parameter `childrenOf`, the children the
  parser reports for the line used as a parent pattern.
 */
module Extract {
  import opened Text
  import opened Blocks

  datatype Option<T> = None | Some(value: T)

  /** The two kinds of declaration the extractor recognises. */
  datatype Kind = Object | Group

  /** The substring that makes a line a candidate declaration of kind `k`. */
  function Marker(k: Kind): string {
    match k
    case Object => "object network"
    case Group => "object-group network"
  }

  /** The pair of tables the extractor returns: objects, then object-groups. */
  datatype Tables = Tables(objects: Table, groups: Table) {
    function Of(k: Kind): Table {
      match k
      case Object => objects
      case Group => groups
    }
  }

  /** Taking the third token of a line with fewer than three tokens raises
      an IndexError; the extraction stops at that line. */
  datatype ExtractError = TooFewTokens(line: nat)

  datatype Result<T> = Ok(value: T) | Err(error: ExtractError)

  /** A candidate line the extractor cannot take a name from. */
  predicate Malformed(line: string) {
    (Contains(line, Marker(Object)) || Contains(line, Marker(Group))) && |Tokens(line)| < 3
  }

  /** The name `line` declares as a block of kind `k`, if it is a real
      declaration: it holds the marker, has a third token, and its first
      token is not `description`. */
  function DeclaredName(line: string, k: Kind): Option<string> {
    var words := Tokens(line);
    if Contains(line, Marker(k)) && |words| >= 3 && words[0] != "description"
    then Some(words[2]) else None
  }

  /** What one line does to the table of kind `k`. */
  function AddDecl(t: Table, line: string, idx: nat, k: Kind, childrenOf: string -> seq<string>): Result<Table> {
    if !Contains(line, Marker(k)) then Ok(t)
    else
      var words := Tokens(line);
      if |words| < 3 then Err(TooFewTokens(idx))
      else if words[2] !in Names(t) && words[0] != "description" then Ok(t + [Entry(words[2], childrenOf(line))])
      else Ok(t)
  }

  /** One iteration of the scan: the object branch, then the object-group branch. */
  function Step(ts: Tables, line: string, idx: nat, childrenOf: string -> seq<string>): Result<Tables> {
    match AddDecl(ts.objects, line, idx, Object, childrenOf)
    case Err(e) => Err(e)
    case Ok(objects) =>
      match AddDecl(ts.groups, line, idx, Group, childrenOf)
      case Err(e) => Err(e)
      case Ok(groups) => Ok(Tables(objects, groups))
  }

  /** The table of kind `k` after a line that is not malformed, given the
      name `d` the line really declares: the entry is appended unless that
      name is already present. */
  function Insert(t: Table, d: Option<string>, body: seq<string>): Table {
    match d
    case Some(x) => if x in Names(t) then t else t + [Entry(x, body)]
    case None => t
  }

  /** The whole scan, as a function of the lines seen so far. */
  function Extract(lines: seq<string>, childrenOf: string -> seq<string>): Result<Tables>
    decreases |lines|
  {
    if lines == [] then Ok(Tables([], []))
    else
      match Extract(lines[..|lines| - 1], childrenOf)
      case Err(e) => Err(e)
      case Ok(ts) => Step(ts, lines[|lines| - 1], |lines| - 1, childrenOf)
  }

  /** `create_dict_object`: scans the lines in order and fills the two tables in place. */
  method ExtractBlocks(lines: seq<string>, childrenOf: string -> seq<string>) returns (r: Result<Tables>)
    ensures r == Extract(lines, childrenOf)
  {
    var objects: Table := [];
    var groups: Table := [];
    var i := 0;
    while i < |lines|
      invariant 0 <= i <= |lines|
      invariant Extract(lines[..i], childrenOf) == Ok(Tables(objects, groups))
    {
      var line := lines[i];
      assert lines[..i + 1][..i] == lines[..i];
      if Contains(line, Marker(Object)) {
        var body := childrenOf(line);
        var words := Tokens(line);
        if |words| < 3 {
          ErrorPersists(lines, i + 1, childrenOf);
          return Err(TooFewTokens(i));
        }
        var name, first := words[2], words[0];
        if name !in Names(objects) && first != "description" {
          objects := objects + [Entry(name, body)];
        }
      }
      if Contains(line, Marker(Group)) {
        var body := childrenOf(line);
        var words := Tokens(line);
        if |words| < 3 {
          ErrorPersists(lines, i + 1, childrenOf);
          return Err(TooFewTokens(i));
        }
        var name, first := words[2], words[0];
        if name !in Names(groups) && first != "description" {
          groups := groups + [Entry(name, body)];
        }
      }
      i := i + 1;
    }
    assert lines[..i] == lines;
    r := Ok(Tables(objects, groups));
  }

  /** Once a prefix has failed, the whole scan fails with the same error. */
  lemma {:induction false} ErrorPersists(lines: seq<string>, m: nat, childrenOf: string -> seq<string>)
    requires m <= |lines|
    requires Extract(lines[..m], childrenOf).Err?
    ensures Extract(lines, childrenOf) == Extract(lines[..m], childrenOf)
    decreases |lines| - m
  {
    if m == |lines| {
      assert lines[..m] == lines;
    } else {
      var front := lines[..|lines| - 1];
      assert front[..m] == lines[..m];
      ErrorPersists(front, m, childrenOf);
    }
  }

  /** A line makes the scan fail exactly when it is a malformed candidate,
      and the error names the line's index. */
  lemma StepErrors(ts: Tables, line: string, idx: nat, childrenOf: string -> seq<string>)
    ensures Step(ts, line, idx, childrenOf).Err? <==> Malformed(line)
    ensures Step(ts, line, idx, childrenOf).Err? ==> Step(ts, line, idx, childrenOf).error == TooFewTokens(idx)
  {
  }

  /** Routing: a line that does not fail changes only the table whose marker
      it holds, and that one by `Insert`: at most one entry appended, keyed by
      the line's third token, only when that name is new and the line is not
      a description. */
  lemma StepRouting(ts: Tables, line: string, idx: nat, childrenOf: string -> seq<string>, k: Kind)
    requires Step(ts, line, idx, childrenOf).Ok?
    ensures Step(ts, line, idx, childrenOf).value.Of(k) == Insert(ts.Of(k), DeclaredName(line, k), childrenOf(line))
  {
  }

  /** A successful scan of a non-empty input is a successful scan of all
      but its last line, followed by `Insert` of that line. */
  lemma ExtractLast(lines: seq<string>, childrenOf: string -> seq<string>, k: Kind)
    requires lines != []
    requires Extract(lines, childrenOf).Ok?
    ensures Extract(lines[..|lines| - 1], childrenOf).Ok?
    ensures Extract(lines, childrenOf).value.Of(k) ==
      Insert(Extract(lines[..|lines| - 1], childrenOf).value.Of(k), DeclaredName(lines[|lines| - 1], k), childrenOf(lines[|lines| - 1]))
  {
    var ts := Extract(lines[..|lines| - 1], childrenOf).value;
    StepRouting(ts, lines[|lines| - 1], |lines| - 1, childrenOf, k);
  }

  /** Failure: the scan fails exactly when some line is a malformed
      candidate, and it reports the first such line. */
  lemma {:induction false} ExtractErrors(lines: seq<string>, childrenOf: string -> seq<string>)
    ensures Extract(lines, childrenOf).Err? <==> exists i :: 0 <= i < |lines| && Malformed(lines[i])
    ensures Extract(lines, childrenOf).Err? ==>
      var i := Extract(lines, childrenOf).error.line;
      i < |lines| && Malformed(lines[i]) && forall j :: 0 <= j < i ==> !Malformed(lines[j])
    decreases |lines|
  {
    if lines != [] {
      var n := |lines|;
      var front := lines[..n - 1];
      ExtractErrors(front, childrenOf);
      assert forall j :: 0 <= j < n - 1 ==> front[j] == lines[j];
      match Extract(front, childrenOf)
      case Ok(ts) => StepErrors(ts, lines[n - 1], n - 1, childrenOf);
      case Err(e) =>
    }
  }

  /** The names the lines declare as kind `k`, line by line. */
  function Decls(lines: seq<string>, k: Kind): (ds: seq<Option<string>>)
    ensures |ds| == |lines|
  {
    seq(|lines|, j requires 0 <= j < |lines| => DeclaredName(lines[j], k))
  }

  /** The children of each line. */
  function Bodies(lines: seq<string>, childrenOf: string -> seq<string>): (bs: seq<seq<string>>)
    ensures |bs| == |lines|
  {
    seq(|lines|, j requires 0 <= j < |lines| => childrenOf(lines[j]))
  }

  /** A table built by inserting the declared names `ds`, each with its body
      from `bs`, in order. */
  function Fill(ds: seq<Option<string>>, bs: seq<seq<string>>): Table
    requires |ds| == |bs|
    decreases |ds|
  {
    if ds == [] then []
    else Insert(Fill(ds[..|ds| - 1], bs[..|bs| - 1]), ds[|ds| - 1], bs[|bs| - 1])
  }

  /** A successful scan builds each table from the names its lines declare. */
  lemma {:induction false} ExtractFill(lines: seq<string>, childrenOf: string -> seq<string>, k: Kind)
    requires Extract(lines, childrenOf).Ok?
    ensures Extract(lines, childrenOf).value.Of(k) == Fill(Decls(lines, k), Bodies(lines, childrenOf))
    decreases |lines|
  {
    if lines != [] {
      var n := |lines|;
      var front := lines[..n - 1];
      ExtractLast(lines, childrenOf, k);
      ExtractFill(front, childrenOf, k);
      DeclsPrefix(lines, n - 1, k);
      BodiesPrefix(lines, n - 1, childrenOf);
    }
  }

  lemma DeclsPrefix(lines: seq<string>, m: nat, k: Kind)
    requires m <= |lines|
    ensures Decls(lines, k)[..m] == Decls(lines[..m], k)
  {
    assert forall j :: 0 <= j < m ==> lines[..m][j] == lines[j];
  }

  lemma BodiesPrefix(lines: seq<string>, m: nat, childrenOf: string -> seq<string>)
    requires m <= |lines|
    ensures Bodies(lines, childrenOf)[..m] == Bodies(lines[..m], childrenOf)
  {
    assert forall j :: 0 <= j < m ==> lines[..m][j] == lines[j];
  }

  /** The keys of a filled table are unique and are the names declared. */
  lemma {:induction false} FillKeys(ds: seq<Option<string>>, bs: seq<seq<string>>)
    requires |ds| == |bs|
    ensures DistinctNames(Fill(ds, bs))
    ensures forall x :: x in Names(Fill(ds, bs)) <==> Some(x) in ds
    decreases |ds|
  {
    if ds != [] {
      var n := |ds|;
      var t0 := Fill(ds[..n - 1], bs[..n - 1]);
      FillKeys(ds[..n - 1], bs[..n - 1]);
      assert ds == ds[..n - 1] + [ds[n - 1]];
      if ds[n - 1].Some? && ds[n - 1].value !in Names(t0) {
        NamesSnoc(t0, Entry(ds[n - 1].value, bs[n - 1]));
      }
    }
  }

  /** Position `i` is the first declaration of the name declared there. */
  predicate FirstDecl(ds: seq<Option<string>>, i: int) {
    0 <= i < |ds| && ds[i].Some? && ds[i] !in ds[..i]
  }

  /** The positions of the first declarations, in order. */
  function Origins(ds: seq<Option<string>>): seq<nat>
    decreases |ds|
  {
    if ds == [] then []
    else Origins(ds[..|ds| - 1]) + (if FirstDecl(ds, |ds| - 1) then [|ds| - 1] else [])
  }

  /** Origins lists every first declaration, and nothing else, in increasing order. */
  lemma {:induction false} OriginsAreFirstDecls(ds: seq<Option<string>>)
    ensures forall a :: 0 <= a < |Origins(ds)| ==> Origins(ds)[a] < |ds|
    ensures forall a, b :: 0 <= a < b < |Origins(ds)| ==> Origins(ds)[a] < Origins(ds)[b]
    ensures forall i :: FirstDecl(ds, i) <==> i in Origins(ds)
    decreases |ds|
  {
    if ds != [] {
      var front := ds[..|ds| - 1];
      OriginsAreFirstDecls(front);
      forall i | 0 <= i < |front|
        ensures FirstDecl(front, i) == FirstDecl(ds, i)
      {
        assert front[..i] == ds[..i];
      }
    }
  }

  /** The entry at position `p` of a filled table comes from the `p`-th first
      declaration: it is keyed by that name and holds that body. */
  lemma {:induction false} FillTables(ds: seq<Option<string>>, bs: seq<seq<string>>)
    requires |ds| == |bs|
    ensures |Fill(ds, bs)| == |Origins(ds)|
    ensures forall p :: 0 <= p < |Origins(ds)| ==>
      var i := Origins(ds)[p];
      i < |ds| && ds[i] == Some(Fill(ds, bs)[p].name) && Fill(ds, bs)[p].body == bs[i]
    decreases |ds|
  {
    if ds != [] {
      var n := |ds|;
      var front, bf := ds[..n - 1], bs[..n - 1];
      var t0, t := Fill(front, bf), Fill(ds, bs);
      FillTables(front, bf);
      FillKeys(front, bf);
      assert |t| == |Origins(ds)| && t[..|t0|] == t0 && (|t| > |t0| ==> t[|t0|] == Entry(ds[n - 1].value, bs[n - 1])) by {
        match ds[n - 1]
        case None =>
        case Some(x) =>
          assert FirstDecl(ds, n - 1) <==> x !in Names(t0);
      }
      forall p | 0 <= p < |Origins(ds)|
        ensures var i := Origins(ds)[p]; i < n && ds[i] == Some(t[p].name) && t[p].body == bs[i]
      {
        if p < |t0| {
          var i := Origins(front)[p];
          assert front[i] == ds[i] && bf[i] == bs[i];
          assert t[p] == t[..|t0|][p];
        }
      }
    }
  }

  /** In a filled table, the body under a name is the one of its first declaration. */
  lemma FillFirstWins(ds: seq<Option<string>>, bs: seq<seq<string>>, i: nat)
    requires |ds| == |bs|
    requires FirstDecl(ds, i)
    ensures var t, x := Fill(ds, bs), ds[i].value;
      PositionOf(t, x) < |t| && t[PositionOf(t, x)].body == bs[i]
  {
    var t := Fill(ds, bs);
    OriginsAreFirstDecls(ds);
    FillTables(ds, bs);
    FillKeys(ds, bs);
    var p :| 0 <= p < |Origins(ds)| && Origins(ds)[p] == i;
    PositionOfName(t, p);
  }

  /** A filled table lists names in the order of their first declarations. */
  lemma FillKeyOrder(ds: seq<Option<string>>, bs: seq<seq<string>>, p: nat, q: nat, i: nat, j: nat)
    requires |ds| == |bs|
    requires p < q < |Fill(ds, bs)|
    requires FirstDecl(ds, i) && ds[i] == Some(Fill(ds, bs)[p].name)
    requires FirstDecl(ds, j) && ds[j] == Some(Fill(ds, bs)[q].name)
    ensures i < j
  {
    var t, o := Fill(ds, bs), Origins(ds);
    OriginsAreFirstDecls(ds);
    FillTables(ds, bs);
    FillKeys(ds, bs);
    var a :| 0 <= a < |o| && o[a] == i;
    var b :| 0 <= b < |o| && o[b] == j;
    assert t[a].name == t[p].name && t[b].name == t[q].name;
  }

  /** The keys of a successful scan's table of kind `k` are unique and are
      exactly the names some line really declares as that kind. */
  lemma ExtractKeys(lines: seq<string>, childrenOf: string -> seq<string>, k: Kind)
    requires Extract(lines, childrenOf).Ok?
    ensures DistinctNames(Extract(lines, childrenOf).value.Of(k))
    ensures forall x :: x in Names(Extract(lines, childrenOf).value.Of(k)) <==>
      exists j :: 0 <= j < |lines| && DeclaredName(lines[j], k) == Some(x)
  {
    var ds := Decls(lines, k);
    ExtractFill(lines, childrenOf, k);
    FillKeys(ds, Bodies(lines, childrenOf));
    forall x
      ensures Some(x) in ds <==> exists j :: 0 <= j < |lines| && DeclaredName(lines[j], k) == Some(x)
    {
      if Some(x) in ds {
        var j :| 0 <= j < |ds| && ds[j] == Some(x);
        assert DeclaredName(lines[j], k) == Some(x);
      }
      if j :| 0 <= j < |lines| && DeclaredName(lines[j], k) == Some(x) {
        assert ds[j] == Some(x);
      }
    }
  }

  /** The tables a successful scan returns: the entry at position p comes
      from the p-th first declaration of its kind, is keyed by that line's
      third token and holds that line's children. */
  lemma ExtractTables(lines: seq<string>, childrenOf: string -> seq<string>, k: Kind)
    requires Extract(lines, childrenOf).Ok?
    ensures |Extract(lines, childrenOf).value.Of(k)| == |Origins(Decls(lines, k))|
    ensures forall p :: 0 <= p < |Origins(Decls(lines, k))| ==>
      var t, i := Extract(lines, childrenOf).value.Of(k), Origins(Decls(lines, k))[p];
      i < |lines| && DeclaredName(lines[i], k) == Some(t[p].name) && t[p].body == childrenOf(lines[i])
  {
    ExtractFill(lines, childrenOf, k);
    FillTables(Decls(lines, k), Bodies(lines, childrenOf));
  }

  /** A line holding neither marker leaves both tables as they were. */
  lemma OtherLinesIgnored(ts: Tables, line: string, idx: nat, childrenOf: string -> seq<string>)
    requires !Contains(line, Marker(Object)) && !Contains(line, Marker(Group))
    ensures Step(ts, line, idx, childrenOf) == Ok(ts)
  {
  }

  /** Description guard: a line whose first token is `description` leaves
      both tables as they were, provided it has the three tokens every
      candidate line needs. */
  lemma DescriptionGuard(ts: Tables, line: string, idx: nat, childrenOf: string -> seq<string>)
    requires |Tokens(line)| >= 3 && Tokens(line)[0] == "description"
    ensures Step(ts, line, idx, childrenOf) == Ok(ts)
  {
  }

  /** First occurrence wins: the body stored under a name is the children of
      the first line that really declares it; description lines before it do
      not count as declarations, and later declarations change nothing. */
  lemma FirstOccurrenceWins(lines: seq<string>, childrenOf: string -> seq<string>, k: Kind, i: nat)
    requires Extract(lines, childrenOf).Ok?
    requires i < |lines| && DeclaredName(lines[i], k).Some?
    requires forall j :: 0 <= j < i ==> DeclaredName(lines[j], k) != DeclaredName(lines[i], k)
    ensures var t, x := Extract(lines, childrenOf).value.Of(k), DeclaredName(lines[i], k).value;
      PositionOf(t, x) < |t| && t[PositionOf(t, x)].body == childrenOf(lines[i])
  {
    var ds := Decls(lines, k);
    ExtractFill(lines, childrenOf, k);
    assert FirstDecl(ds, i) by {
      assert forall j :: 0 <= j < i ==> ds[..i][j] == ds[j];
    }
    FillFirstWins(ds, Bodies(lines, childrenOf), i);
  }

  /** Key order: the table lists names in the order of their first real
      declarations in the input. */
  lemma KeyOrder(lines: seq<string>, childrenOf: string -> seq<string>, k: Kind, p: nat, q: nat, i: nat, j: nat)
    requires Extract(lines, childrenOf).Ok?
    requires p < q < |Extract(lines, childrenOf).value.Of(k)|
    requires FirstDecl(Decls(lines, k), i) && DeclaredName(lines[i], k) == Some(Extract(lines, childrenOf).value.Of(k)[p].name)
    requires FirstDecl(Decls(lines, k), j) && DeclaredName(lines[j], k) == Some(Extract(lines, childrenOf).value.Of(k)[q].name)
    ensures i < j
  {
    ExtractFill(lines, childrenOf, k);
    FillKeyOrder(Decls(lines, k), Bodies(lines, childrenOf), p, q, i, j);
  }
}
