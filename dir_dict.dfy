/**
  create_dir_dict: the lines of `du -d 1` output turned into an
  insertion-ordered dictionary from directory path to size. Python's dict
  is modelled as a sequence of entries with distinct paths, kept in the
  order in which each path was first inserted.
 */
module DirDict {
  import opened Wrappers
  import opened Text

  datatype Entry = Entry(path: string, size: nat)

  /** The ValueError create_dir_dict raises, with the (0-based) index of the
      offending line. */
  datatype ParseError = NoTab(line: nat) | NotAnInteger(line: nat)

  function Paths(d: seq<Entry>): (ps: seq<string>)
    ensures |ps| == |d| && forall i :: 0 <= i < |d| ==> ps[i] == d[i].path
  {
    if d == [] then [] else [d[0].path] + Paths(d[1..])
  }

  lemma PathsOfSnoc(d: seq<Entry>, e: Entry)
    ensures Paths(d + [e]) == Paths(d) + [e.path]
  {
    var l, r := Paths(d + [e]), Paths(d) + [e.path];
    assert |l| == |r|;
    forall i | 0 <= i < |l| ensures l[i] == r[i] {
      assert (d + [e])[i] == if i < |d| then d[i] else e;
    }
  }

  predicate UniquePaths(d: seq<Entry>)
  {
    forall i, j :: 0 <= i < j < |d| ==> d[i].path != d[j].path
  }

  /** `dir_dict.get(k)`. */
  function Lookup(d: seq<Entry>, k: string): Option<nat>
  {
    if d == [] then None
    else if d[0].path == k then Some(d[0].size)
    else Lookup(d[1..], k)
  }

  /** `dir_dict[k] = v`: a new key goes to the end, an existing key keeps its
      place and takes the new value. */
  function Put(d: seq<Entry>, k: string, v: nat): seq<Entry>
  {
    if d == [] then [Entry(k, v)]
    else if d[0].path == k then [Entry(k, v)] + d[1..]
    else [d[0]] + Put(d[1..], k, v)
  }

  /** After `dir_dict[k] = v`, k maps to v and every other key is unchanged. */
  lemma {:induction false} PutLookup(d: seq<Entry>, k: string, v: nat, k': string)
    ensures Lookup(Put(d, k, v), k') == if k' == k then Some(v) else Lookup(d, k')
  {
    if d != [] && d[0].path != k {
      PutLookup(d[1..], k, v, k');
    }
  }

  /** The key order is kept, and a new key is appended. */
  lemma {:induction false} PutPaths(d: seq<Entry>, k: string, v: nat)
    ensures Paths(Put(d, k, v)) == if k in Paths(d) then Paths(d) else Paths(d) + [k]
  {
    if d != [] && d[0].path != k {
      PutPaths(d[1..], k, v);
      assert ([d[0]] + Put(d[1..], k, v))[1..] == Put(d[1..], k, v);
    }
  }

  /** Keys stay distinct. */
  lemma PutUnique(d: seq<Entry>, k: string, v: nat)
    requires UniquePaths(d)
    ensures UniquePaths(Put(d, k, v))
  {
    PutPaths(d, k, v);
    var r := Put(d, k, v);
    assert forall i :: 0 <= i < |r| ==> r[i].path == Paths(r)[i];
    assert forall i :: 0 <= i < |d| ==> d[i].path == Paths(d)[i];
  }

  /** One line: `size, directory = line.split('\t', 1)`, then
      `directory.strip()` as key and `int(size)` as value. */
  function ParseLine(line: string, index: nat): Result<Entry, ParseError>
  {
    match SplitAtFirstTab(line)
    case None => Failure(NoTab(index))
    case Some((sizeField, directory)) =>
      match ParseNat(sizeField)
      case None => Failure(NotAnInteger(index))
      case Some(n) => Success(Entry(Strip(directory), n))
  }

  /** Each line's outcome, in order: the outcomes of the lines before the
      last, then the last line's, parsed with its own index. */
  function ParsedLines(lines: seq<string>): (rs: seq<Result<Entry, ParseError>>)
    ensures |rs| == |lines| && forall i :: 0 <= i < |lines| ==> rs[i] == ParseLine(lines[i], i)
  {
    if lines == [] then []
    else
      var n := |lines| - 1;
      ParsedLines(lines[..n]) + [ParseLine(lines[n], n)]
  }

  /** The outcomes of a loop that stops at the first failure: all the values
      when every step succeeded, otherwise the first step's error. */
  function Collect<T, E>(rs: seq<Result<T, E>>): (r: Result<seq<T>, E>)
    ensures r.Success? <==> forall i :: 0 <= i < |rs| ==> rs[i].Success?
    ensures r.Success? ==> |r.value| == |rs| && forall i :: 0 <= i < |rs| ==> rs[i] == Success(r.value[i])
  {
    if rs == [] then Success([])
    else
      var n := |rs| - 1;
      assert forall i :: 0 <= i < n ==> rs[..n][i] == rs[i];
      match Collect(rs[..n])
      case Failure(e) => Failure(e)
      case Success(vs) =>
        match rs[n]
        case Failure(e) => Failure(e)
        case Success(v) => Success(vs + [v])
  }

  /** The error Collect reports is the one of the first step that fails. */
  lemma {:induction false} CollectFirstError<T, E>(rs: seq<Result<T, E>>)
    requires Collect(rs).Failure?
    ensures exists i :: (0 <= i < |rs| && rs[i] == Failure(Collect(rs).error)
      && forall j :: 0 <= j < i ==> rs[j].Success?)
  {
    var n := |rs| - 1;
    var pre := rs[..n];
    assert forall i :: 0 <= i < n ==> pre[i] == rs[i];
    if Collect(pre).Failure? {
      CollectFirstError(pre);
      var i :| 0 <= i < n && pre[i] == Failure(Collect(pre).error)
        && (forall j :: 0 <= j < i ==> pre[j].Success?);
      assert rs[i] == Failure(Collect(rs).error);
    } else {
      assert rs[n] == Failure(Collect(rs).error);
    }
  }

  /** One more step of the loop: a success extends the values, a failure
      ends the loop with its error. */
  lemma CollectStep<T, E>(rs: seq<Result<T, E>>, i: nat, vs: seq<T>)
    requires i < |rs| && Collect(rs[..i]) == Success(vs)
    ensures Collect(rs[..i + 1]) == if rs[i].Success? then Success(vs + [rs[i].value]) else Failure(rs[i].error)
  {
    assert rs[..i + 1][..i] == rs[..i];
  }

  /** Once a prefix of the steps fails, the whole loop fails the same way. */
  lemma {:induction false} CollectFailurePersists<T, E>(rs: seq<Result<T, E>>, i: nat)
    requires i < |rs| && Collect(rs[..i + 1]).Failure?
    ensures Collect(rs) == Collect(rs[..i + 1])
    decreases |rs|
  {
    if |rs| > i + 1 {
      var pre := rs[..|rs| - 1];
      assert pre[..i + 1] == rs[..i + 1];
      CollectFailurePersists(pre, i);
    } else {
      assert rs[..i + 1] == rs;
    }
  }

  /** A record as the disk-usage utility writes it: `<size><TAB><path>`. */
  function DuLine(e: Entry): string
  {
    NatToString(e.size) + "\t" + e.path
  }

  /** The utility's whole output for a list of records, one line each. */
  function DuOutput(recs: seq<Entry>): (lines: seq<string>)
    ensures |lines| == |recs| && forall i :: 0 <= i < |recs| ==> lines[i] == DuLine(recs[i])
  {
    if recs == [] then [] else [DuLine(recs[0])] + DuOutput(recs[1..])
  }

  /** Parsing a well-formed record line recovers the record, provided the
      path carries no surrounding white space (which strip would remove). */
  lemma ParseDuLine(e: Entry, i: nat)
    requires Strip(e.path) == e.path
    ensures ParseLine(DuLine(e), i) == Success(e)
  {
    var digits := NatToString(e.size);
    assert '\t' !in digits by {
      assert forall j :: 0 <= j < |digits| ==> IsDigit(digits[j]);
    }
    SplitAtFirstTabOfJoin(digits, e.path);
    ParseNatToString(e.size);
  }

  /** Every line parsed in order; the first line that fails decides the error. */
  function ParseRecords(lines: seq<string>): Result<seq<Entry>, ParseError>
  {
    Collect(ParsedLines(lines))
  }

  /** The dictionary the records build when inserted one after another. */
  function FromRecords(recs: seq<Entry>): seq<Entry>
  {
    if recs == [] then []
    else
      var last := recs[|recs| - 1];
      Put(FromRecords(recs[..|recs| - 1]), last.path, last.size)
  }

  /** Storing one more record is one more `dir_dict[k] = v`. */
  lemma FromRecordsSnoc(recs: seq<Entry>, e: Entry)
    ensures FromRecords(recs + [e]) == Put(FromRecords(recs), e.path, e.size)
  {
    assert (recs + [e])[..|recs|] == recs;
  }

  /** create_dir_dict(du_list) as a function of its input. */
  function DirDictOf(lines: seq<string>): Result<seq<Entry>, ParseError>
  {
    match ParseRecords(lines)
    case Failure(e) => Failure(e)
    case Success(recs) => Success(FromRecords(recs))
  }

  // Reference definitions of the dictionary's content and key order.

  /** The size on the last record for path k, if any. */
  function LastSize(recs: seq<Entry>, k: string): Option<nat>
  {
    if recs == [] then None
    else if recs[|recs| - 1].path == k then Some(recs[|recs| - 1].size)
    else LastSize(recs[..|recs| - 1], k)
  }

  /** Index of the first occurrence of k in ps (|ps| when absent). */
  function FirstIndex(ps: seq<string>, k: string): (i: nat)
    ensures i <= |ps|
    ensures i < |ps| <==> k in ps
    ensures i < |ps| ==> ps[i] == k
    ensures forall j :: 0 <= j < i ==> ps[j] != k
  {
    if ps == [] then 0
    else if ps[0] == k then 0
    else 1 + FirstIndex(ps[1..], k)
  }

  /** keys are listed in the order in which they first occur in ps. */
  predicate InFirstSeenOrder(keys: seq<string>, ps: seq<string>)
  {
    forall i, j :: 0 <= i < j < |keys| ==> FirstIndex(ps, keys[i]) < FirstIndex(ps, keys[j])
  }

  lemma FirstIndexAppend(ps: seq<string>, x: string, k: string)
    requires k in ps
    ensures FirstIndex(ps + [x], k) == FirstIndex(ps, k)
  {
    var i := FirstIndex(ps, k);
    assert (ps + [x])[i] == k;
    assert forall j :: 0 <= j < i ==> (ps + [x])[j] != k;
  }

  /** Inserting records one by one keeps one entry per distinct path. */
  lemma {:induction false} FromRecordsUnique(recs: seq<Entry>)
    ensures UniquePaths(FromRecords(recs))
  {
    if recs != [] {
      var last := recs[|recs| - 1];
      FromRecordsUnique(recs[..|recs| - 1]);
      PutUnique(FromRecords(recs[..|recs| - 1]), last.path, last.size);
    }
  }

  /** Each path maps to the size on its last record. */
  lemma {:induction false} FromRecordsLookup(recs: seq<Entry>, k: string)
    ensures Lookup(FromRecords(recs), k) == LastSize(recs, k)
  {
    if recs != [] {
      var last := recs[|recs| - 1];
      FromRecordsLookup(recs[..|recs| - 1], k);
      PutLookup(FromRecords(recs[..|recs| - 1]), last.path, last.size, k);
    }
  }

  /** The keys are exactly the records' paths. */
  lemma {:induction false} FromRecordsMembers(recs: seq<Entry>)
    ensures forall k :: k in Paths(FromRecords(recs)) <==> k in Paths(recs)
  {
    if recs != [] {
      var n := |recs| - 1;
      var pre, e := recs[..n], recs[n];
      FromRecordsMembers(pre);
      PutPaths(FromRecords(pre), e.path, e.size);
      assert recs == pre + [e];
      PathsOfSnoc(pre, e);
    }
  }

  /** Appending one occurrence x keeps the first-seen order of the keys, when
      x is appended to the keys exactly if it is new. */
  lemma FirstSeenOrderStep(keys: seq<string>, ps: seq<string>, x: string)
    requires forall k :: k in keys <==> k in ps
    requires InFirstSeenOrder(keys, ps)
    ensures InFirstSeenOrder(if x in ps then keys else keys + [x], ps + [x])
  {
    var ps' := ps + [x];
    forall k | k in ps
      ensures FirstIndex(ps', k) == FirstIndex(ps, k)
    {
      FirstIndexAppend(ps, x, k);
    }
    if x !in ps {
      var keys' := keys + [x];
      assert FirstIndex(ps', x) == |ps|;
      forall i, j | 0 <= i < j < |keys'|
        ensures FirstIndex(ps', keys'[i]) < FirstIndex(ps', keys'[j])
      {
        assert keys'[i] == keys[i] && keys[i] in ps;
        if j < |keys| {
          assert keys'[j] == keys[j] && keys[j] in ps;
        }
      }
    }
  }

  /** The keys are in the order in which each path was first seen. */
  lemma {:induction false} FromRecordsOrder(recs: seq<Entry>)
    ensures InFirstSeenOrder(Paths(FromRecords(recs)), Paths(recs))
  {
    if recs != [] {
      var n := |recs| - 1;
      var pre, e := recs[..n], recs[n];
      var d0 := FromRecords(pre);
      FromRecordsOrder(pre);
      FromRecordsMembers(pre);
      assert recs == pre + [e];
      FromRecordsSnoc(pre, e);
      PutPaths(d0, e.path, e.size);
      PathsOfSnoc(pre, e);
      FirstSeenOrderStep(Paths(d0), Paths(pre), e.path);
    }
  }

  /** create_dir_dict on a whole input: it fails exactly when some line does,
      with the first failing line's error; on success its keys are the
      distinct stripped paths in first-seen order and each maps to the size
      on its last line. */
  lemma DirDictOfContent(lines: seq<string>)
    ensures DirDictOf(lines).Failure? <==> exists i :: 0 <= i < |lines| && ParseLine(lines[i], i).Failure?
    ensures DirDictOf(lines).Failure? ==>
      exists i :: (0 <= i < |lines| && ParseLine(lines[i], i) == Failure(DirDictOf(lines).error)
        && forall j :: 0 <= j < i ==> ParseLine(lines[j], j).Success?)
    ensures DirDictOf(lines).Success? ==>
      var recs := ParseRecords(lines).value;
      var d := DirDictOf(lines).value;
      && UniquePaths(d)
      && (forall k :: k in Paths(d) <==> k in Paths(recs))
      && (forall k :: Lookup(d, k) == LastSize(recs, k))
      && InFirstSeenOrder(Paths(d), Paths(recs))
  {
    if ParseRecords(lines).Success? {
      var recs := ParseRecords(lines).value;
      FromRecordsUnique(recs);
      FromRecordsMembers(recs);
      FromRecordsOrder(recs);
      forall k ensures Lookup(FromRecords(recs), k) == LastSize(recs, k) {
        FromRecordsLookup(recs, k);
      }
    } else {
      CollectFirstError(ParsedLines(lines));
    }
  }

  /** A line without a tab, after lines that all parse, is the error. */
  lemma LineWithoutTabFails(lines: seq<string>, i: nat)
    requires i < |lines| && '\t' !in lines[i]
    requires forall j :: 0 <= j < i ==> ParseLine(lines[j], j).Success?
    ensures DirDictOf(lines) == Failure(NoTab(i))
  {
    DirDictOfContent(lines);
  }

  /** An empty input gives an empty dictionary. */
  lemma DirDictOfEmpty()
    ensures DirDictOf([]) == Success([])
  {
  }

  /** Output written by the disk-usage utility for a list of records parses
      to the dictionary those records build. */
  lemma DirDictOfDuLines(recs: seq<Entry>)
    requires forall i :: 0 <= i < |recs| ==> Strip(recs[i].path) == recs[i].path
    ensures DirDictOf(DuOutput(recs)) == Success(FromRecords(recs))
  {
    var lines := DuOutput(recs);
    forall i | 0 <= i < |recs| ensures ParsedLines(lines)[i] == Success(recs[i]) {
      ParseDuLine(recs[i], i);
    }
    assert Collect(ParsedLines(lines)).value == recs;
  }

  lemma TwoLinesText()
    ensures DuOutput([Entry("/home", 4096), Entry("/var", 8192)]) == ["4096\t/home", "8192\t/var"]
  {
    assert NatToString(4096) == "4096" && NatToString(8192) == "8192";
    assert DuLine(Entry("/home", 4096)) == "4096" + "\t" + "/home" == "4096\t/home";
    assert DuLine(Entry("/var", 8192)) == "8192" + "\t" + "/var" == "8192\t/var";
  }

  /** The two-line example: both paths, in input order. */
  lemma DirDictOfTwoLines()
    ensures DirDictOf(["4096\t/home", "8192\t/var"]) == Success([Entry("/home", 4096), Entry("/var", 8192)])
  {
    var home, var_ := Entry("/home", 4096), Entry("/var", 8192);
    TwoLinesText();
    StripOfTrimmed(home.path);
    StripOfTrimmed(var_.path);
    TwoLinesRecords();
    DirDictOfDuLines([home, var_]);
  }

  lemma TwoLinesRecords()
    ensures FromRecords([Entry("/home", 4096), Entry("/var", 8192)]) == [Entry("/home", 4096), Entry("/var", 8192)]
  {
    var home, var_ := Entry("/home", 4096), Entry("/var", 8192);
    assert [home, var_][..1] == [home];
    assert FromRecords([home]) == Put([], home.path, home.size) == [home];
    assert Put([home], var_.path, var_.size) == [home] + Put([], var_.path, var_.size);
  }

  lemma RepeatedPathText()
    ensures DuOutput([Entry("/a", 1), Entry("/b", 2), Entry("/a", 3)]) == ["1\t/a", "2\t/b", "3\t/a"]
  {
    assert NatToString(1) == "1" && NatToString(2) == "2" && NatToString(3) == "3";
    assert DuLine(Entry("/a", 1)) == "1" + "\t" + "/a" == "1\t/a";
    assert DuLine(Entry("/b", 2)) == "2" + "\t" + "/b" == "2\t/b";
    assert DuLine(Entry("/a", 3)) == "3" + "\t" + "/a" == "3\t/a";
  }

  /** A repeated path keeps its first position and takes the later size. */
  lemma DirDictOfRepeatedPath()
    ensures DirDictOf(["1\t/a", "2\t/b", "3\t/a"]) == Success([Entry("/a", 3), Entry("/b", 2)])
  {
    var a1, b2, a3 := Entry("/a", 1), Entry("/b", 2), Entry("/a", 3);
    var recs := [a1, b2, a3];
    RepeatedPathText();
    StripOfTrimmed(a1.path);
    StripOfTrimmed(b2.path);
    RepeatedPathRecords();
    DirDictOfDuLines(recs);
  }

  lemma RepeatedPathRecords()
    ensures FromRecords([Entry("/a", 1), Entry("/b", 2), Entry("/a", 3)]) == [Entry("/a", 3), Entry("/b", 2)]
  {
    var a1, b2, a3 := Entry("/a", 1), Entry("/b", 2), Entry("/a", 3);
    var recs := [a1, b2, a3];
    assert recs[..2] == [a1, b2] && recs[..2][..1] == [a1];
    assert FromRecords([a1]) == Put([], a1.path, a1.size) == [a1];
    assert Put([a1], b2.path, b2.size) == [a1] + Put([], b2.path, b2.size);
    assert FromRecords([a1, b2]) == [a1, b2];
    assert Put([a1, b2], a3.path, a3.size) == [a3, b2];
  }

  /** The loop of create_dir_dict: each line is split, converted and stored
      in turn; the first bad line ends it with its error. */
  method CreateDirDict(lines: seq<string>) returns (r: Result<seq<Entry>, ParseError>)
    ensures r == DirDictOf(lines)
  {
    ghost var outcomes := ParsedLines(lines);
    var dict: seq<Entry> := [];
    ghost var recs: seq<Entry> := [];
    for i := 0 to |lines|
      invariant Collect(outcomes[..i]) == Success(recs)
      invariant dict == FromRecords(recs)
    {
      CollectStep(outcomes, i, recs);
      var split := SplitAtFirstTab(lines[i]);
      if split.None? {
        CollectFailurePersists(outcomes, i);
        return Failure(NoTab(i));
      }
      var (sizeField, directory) := split.value;
      var size := ParseNat(sizeField);
      if size.None? {
        CollectFailurePersists(outcomes, i);
        return Failure(NotAnInteger(i));
      }
      var entry := Entry(Strip(directory), size.value);
      assert outcomes[i] == Success(entry);
      FromRecordsSnoc(recs, entry);
      dict := Put(dict, entry.path, entry.size);
      recs := recs + [entry];
    }
    assert outcomes[..|lines|] == outcomes;
    return Success(dict);
  }
}
