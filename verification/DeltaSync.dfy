// The directory poller of http_clients.py: each poll sends only what was added
// or changed since the last successful store (DictDiffer in utils.py).
module DeltaSync {

  type Data = map<string, string>

  // ----- DictDiffer -----

  class DictDiffer {
    const current: Data
    const past: Data
    const intersect: set<string>

    constructor (current: Data, past: Data)
      ensures this.current == current && this.past == past && intersect == current.Keys * past.Keys
    {
      this.current, this.past := current, past;
      intersect := current.Keys * past.Keys;
    }

    function Added(): set<string> {
      current.Keys - intersect
    }

    function Removed(): set<string> {
      past.Keys - intersect
    }

    function Changed(): set<string>
      requires intersect == current.Keys * past.Keys
    {
      set o | o in intersect && past[o] != current[o]
    }

    function Unchanged(): set<string>
      requires intersect == current.Keys * past.Keys
    {
      set o | o in intersect && past[o] == current[o]
    }

    // The four sets split the keys of both dictionaries, and the changes plus
    // the past rebuild the current one.
    lemma Partition()
      requires intersect == current.Keys * past.Keys
      ensures Added() !! Changed() !! Unchanged() !! Removed()
      ensures Added() + Changed() + Unchanged() == current.Keys
      ensures Removed() + Changed() + Unchanged() == past.Keys
      ensures (map k | k in Added() + Changed() :: current[k]) + (map k | k in Unchanged() :: past[k]) == current
      ensures Changed() == ChangedKeys(current, past)
      ensures DataToSend(current, past) == map k | k in Added() + Changed() :: current[k]
    {
    }
  }

  // ----- one poll -----

  // What the poller remembers and what the server has accumulated.
  datatype Sync = Sync(last: Data, server: Data)

  // Stored: store returned. Failed: it raised an exception, although the
  // server may have kept some of the fields.
  datatype Outcome = Stored | Failed(kept: set<string>)

  function DataToSend(current: Data, last: Data): Data {
    map k | k in current && (k !in last || last[k] != current[k]) :: current[k]
  }

  function Poll(s: Sync, current: Data, outcome: Outcome): Sync {
    var data := DataToSend(current, s.last);
    if data == map[] then s
    else
      match outcome
      case Stored => Sync(current, s.server + data)
      case Failed(kept) => Sync(s.last, s.server + Restricted(data, kept))
  }

  function Restricted(data: Data, kept: set<string>): Data {
    map k | k in data && k in kept :: data[k]
  }

  datatype File = File(name: string, content: string)

  function Contents(files: seq<File>): Data {
    if files == [] then map[]
    else
      var n := |files| - 1;
      Contents(files[..n])[files[n].name := files[n].content]
  }

  // The last file of that name.
  predicate LastNamed(files: seq<File>, i: nat, name: string) {
    i < |files| && files[i].name == name && forall j | i < j < |files| :: files[j].name != name
  }

  // A name is in the data if and only if some file has it, and stands for the
  // content of the last one that does.
  lemma {:induction false} ContentsAre(files: seq<File>, name: string)
    ensures name in Contents(files) <==> exists f | f in files :: f.name == name
    ensures name in Contents(files) ==> exists i: nat :: LastNamed(files, i, name) && Contents(files)[name] == files[i].content
  {
    if files != [] {
      var n: nat := |files| - 1;
      ContentsAre(files[..n], name);
      assert files == files[..n] + [files[n]];
      if files[n].name == name {
        assert LastNamed(files, n, name);
      } else if name in Contents(files) {
        var i: nat :| LastNamed(files[..n], i, name) && Contents(files[..n])[name] == files[i].content;
        assert LastNamed(files, i, name);
      }
    }
  }

  // As in a directory.
  predicate DistinctNames(files: seq<File>) {
    forall i, j | 0 <= i < j < |files| :: files[i].name != files[j].name
  }

  // Every file of the directory is on the server with its content.
  predicate Shows(server: Data, files: seq<File>) {
    forall f | f in files :: f.name in server && server[f.name] == f.content
  }

  lemma AgreesShows(server: Data, files: seq<File>)
    requires DistinctNames(files) && Agrees(server, Contents(files))
    ensures Shows(server, files)
  {
    forall f | f in files ensures f.name in server && server[f.name] == f.content {
      ContentsAre(files, f.name);
      var i: nat :| LastNamed(files, i, f.name) && Contents(files)[f.name] == files[i].content;
      var j :| 0 <= j < |files| && files[j] == f;
      assert i == j;
    }
  }

  class Server {
    var fields: Data

    // The HTTP store call; when it fails, the server may have kept any of the
    // fields.
    method Store(data: Data) returns (ok: bool, ghost kept: set<string>)
      modifies this
      ensures fields == old(fields) + if ok then data else Restricted(data, kept)
    {
      ok := *;
      var part :| part <= data.Keys;
      kept := part;
      fields := fields + if ok then data else Restricted(data, part);
    }
  }

  class Poller {
    var lastData: Data
    const server: Server

    constructor (server: Server)
      ensures lastData == map[] && this.server == server
    {
      lastData := map[];
      this.server := server;
    }

    // One round of the endless loop.
    method PollDirectory(files: seq<File>) returns (ok: bool, ghost outcome: Outcome)
      modifies this, server
      ensures ok == outcome.Stored?
      ensures Sync(lastData, server.fields) == Poll(Sync(old(lastData), old(server.fields)), Contents(files), outcome)
      ensures ok && DistinctNames(files) && Agrees(old(server.fields), old(lastData)) ==> Shows(server.fields, files)
    {
      ghost var before := Sync(lastData, server.fields);
      ok, outcome := true, Stored;
      var currentData := ReadDirectory(files);
      var dataToSend := Difference(currentData, lastData);
      if |dataToSend| > 0 {
        ghost var kept;
        ok, kept := server.Store(dataToSend);
        if ok {
          lastData := currentData;
        } else {
          outcome := Failed(kept);
        }
      }
      if ok && DistinctNames(files) && Agrees(before.server, before.last) {
        PollGood(before, Round(Contents(files), outcome));
        AgreesShows(server.fields, files);
      }
    }

    // The loop, for any number of rounds.
    method PollRounds(directories: seq<seq<File>>) returns (ghost rounds: seq<Round>)
      modifies this, server
      ensures |rounds| == |directories| && forall i | 0 <= i < |rounds| :: rounds[i].current == Contents(directories[i])
      ensures Sync(lastData, server.fields) == Run(Sync(old(lastData), old(server.fields)), rounds)
      ensures directories != [] && GoodEnd(Sync(old(lastData), old(server.fields)), rounds) ==>
        var last := directories[|directories| - 1]; DistinctNames(last) ==> Shows(server.fields, last)
    {
      rounds := [];
      ghost var start := Sync(lastData, server.fields);
      for n := 0 to |directories|
        invariant |rounds| == n && forall i | 0 <= i < n :: rounds[i].current == Contents(directories[i])
        invariant Sync(lastData, server.fields) == Run(start, rounds)
      {
        var _, outcome := PollDirectory(directories[n]);
        RunSnoc(start, rounds, Round(Contents(directories[n]), outcome));
        rounds := rounds + [Round(Contents(directories[n]), outcome)];
      }
      if directories != [] && GoodEnd(start, rounds) && DistinctNames(directories[|directories| - 1]) {
        DirectoryShown(start, rounds, directories[|directories| - 1]);
      }
    }
  }

  lemma StoreIsPoll(s: Sync, current: Data, ok: bool)
    requires DataToSend(current, s.last) != map[]
    ensures Poll(s, current, if ok then Stored else Failed({}))
         == if ok then Sync(current, s.server + DataToSend(current, s.last)) else s
  {
    var data := DataToSend(current, s.last);
    var none: set<string> := {};
    assert (map k | k in data && k in none :: data[k]) == map[];
  }

  method ReadDirectory(files: seq<File>) returns (data: Data)
    ensures data == Contents(files)
  {
    data := map[];
    for i := 0 to |files|
      invariant data == Contents(files[..i])
    {
      assert files[..i + 1][..i] == files[..i];
      data := data[files[i].name := files[i].content];
    }
    assert files[..|files|] == files;
  }

  method Difference(current: Data, last: Data) returns (data: Data)
    ensures data == DataToSend(current, last)
  {
    var changed := new DictDiffer(current, last);
    var added := new DictDiffer(current, last);
    data := Select(map[], current, changed.Changed());
    data := Select(data, current, added.Added());
  }

  // The loops that copy the chosen keys.
  method Select(data: Data, current: Data, keys: set<string>) returns (r: Data)
    requires keys <= current.Keys
    ensures r == data + map k | k in keys :: current[k]
  {
    r := data;
    var remaining := keys;
    while remaining != {}
      invariant remaining <= keys
      invariant r == data + map k | k in keys - remaining :: current[k]
      decreases remaining
    {
      var key :| key in remaining;
      r := r[key := current[key]];
      remaining := remaining - {key};
    }
  }

  // ----- whole runs -----

  datatype Round = Round(current: Data, outcome: Outcome)

  predicate Agrees(server: Data, known: Data) {
    forall k | k in known :: k in server && server[k] == known[k]
  }

  // The round brought the server up to date.
  predicate Good(s: Sync, r: Round) {
    r.outcome.Stored? || DataToSend(r.current, s.last) == map[]
  }

  function Run(s: Sync, rounds: seq<Round>): Sync {
    if rounds == [] then s
    else
      var n := |rounds| - 1;
      Poll(Run(s, rounds[..n]), rounds[n].current, rounds[n].outcome)
  }

  // A server that is sent the whole directory in every good round.
  function FullSync(s: Sync, rounds: seq<Round>): Data {
    if rounds == [] then s.server
    else
      var n := |rounds| - 1;
      if Good(Run(s, rounds[..n]), rounds[n]) then FullSync(s, rounds[..n]) + rounds[n].current
      else FullSync(s, rounds[..n])
  }

  predicate FailuresStoreNothing(rounds: seq<Round>) {
    forall r | r in rounds :: r.outcome == Stored || r.outcome == Failed({})
  }

  lemma PollAgrees(s: Sync, r: Round)
    requires Agrees(s.server, s.last)
    requires r.outcome == Stored || r.outcome == Failed({})
    ensures var s' := Poll(s, r.current, r.outcome);
      && Agrees(s'.server, s'.last)
      && s'.server == if Good(s, r) then s.server + r.current else s.server
  {
    var data := DataToSend(r.current, s.last);
    if data == map[] {
      forall k | k in r.current ensures k in s.server && s.server[k] == r.current[k] {
        assert k !in data;
      }
    } else if r.outcome.Stored? {
      forall k | k in r.current ensures (s.server + data)[k] == r.current[k] {
        if k !in data {
          assert k in s.last && s.last[k] == r.current[k];
        }
      }
    } else {
      StoreIsPoll(s, r.current, false);
    }
  }

  // Sending differences leaves the server with exactly what sending everything
  // would, through any edits, removals, re-additions and failures.
  lemma {:induction false} DeltaRefinesFull(s: Sync, rounds: seq<Round>)
    requires Agrees(s.server, s.last) && FailuresStoreNothing(rounds)
    ensures Run(s, rounds).server == FullSync(s, rounds)
    ensures Agrees(Run(s, rounds).server, Run(s, rounds).last)
  {
    if rounds != [] {
      var n := |rounds| - 1;
      assert rounds[n] in rounds;
      DeltaRefinesFull(s, rounds[..n]);
      PollAgrees(Run(s, rounds[..n]), rounds[n]);
    }
  }

  // So after a good round the server shows the directory as it is.
  lemma UpToDate(s: Sync, rounds: seq<Round>, r: Round)
    requires Agrees(s.server, s.last) && FailuresStoreNothing(rounds + [r])
    requires Good(Run(s, rounds), r)
    ensures Agrees(Run(s, rounds + [r]).server, r.current)
  {
    assert (rounds + [r])[..|rounds|] == rounds;
    DeltaRefinesFull(s, rounds + [r]);
  }

  // Right after a store that failed although the server kept some fields, the
  // server agrees with what the poller remembers exactly if all of these fields
  // were new. Later rounds can repair it: see RecoversIff.
  lemma PartialFailureHarmlessIff(s: Sync, current: Data, kept: set<string>)
    requires Agrees(s.server, s.last)
    ensures var s' := Poll(s, current, Failed(kept));
      Agrees(s'.server, s'.last)
      <==> forall k | k in DataToSend(current, s.last) && k in kept :: k !in s.last
  {
    var data := DataToSend(current, s.last);
    var s' := Poll(s, current, Failed(kept));
    if data != map[] {
      forall k | k in data && k in kept && k in s.last
        ensures s'.server[k] != s'.last[k]
      {
        assert s'.server[k] == data[k] == current[k];
      }
    }
  }

  // The keys that both know with different contents: Changed() of DictDiffer.
  function ChangedKeys(current: Data, last: Data): set<string> {
    set k | k in current && k in last && last[k] != current[k]
  }

  // Whatever a failing store kept, whatever happens then, as long as other
  // failures store nothing: a good round brings the server up to date.
  ghost predicate Recovers(s: Sync, current: Data) {
    forall kept: set<string>, rounds: seq<Round>, r: Round ::
      FailuresStoreNothing(rounds + [r]) && Good(Run(Poll(s, current, Failed(kept)), rounds), r) ==>
        Agrees(Run(Poll(s, current, Failed(kept)), rounds + [r]).server, r.current)
  }

  lemma UnchangedHarmless(s: Sync, current: Data, kept: set<string>)
    requires Agrees(s.server, s.last) && ChangedKeys(current, s.last) == {}
    ensures Agrees(Poll(s, current, Failed(kept)).server, s.last) && Poll(s, current, Failed(kept)).last == s.last
  {
    forall k | k in DataToSend(current, s.last) && k in kept ensures k !in s.last {
      assert k !in ChangedKeys(current, s.last);
    }
    PartialFailureHarmlessIff(s, current, kept);
  }

  // An edit that a failing store kept and that is taken back is not sent again.
  lemma TakenBack(s: Sync, current: Data, key: string)
    requires Agrees(s.server, s.last) && key in ChangedKeys(current, s.last)
    ensures var s' := Poll(s, current, Failed({key})); var r := Round(s.last, Stored);
      && Good(s', r) && key in Run(s', [r]).server && Run(s', [r]).server[key] == current[key] != s.last[key]
      && !Agrees(Run(s', [r]).server, r.current)
  {
    var s', r := Poll(s, current, Failed({key})), Round(s.last, Stored);
    assert key in DataToSend(current, s.last);
    assert s'.last == s.last && DataToSend(s.last, s'.last) == map[];
    assert [r][..0] == [] && Run(s', [r]) == Poll(Run(s', []), r.current, r.outcome) == s';
  }

  // Before a poll it can be told whether a failing store could do lasting
  // harm: exactly if some known file has changed.
  lemma RecoversIff(s: Sync, current: Data)
    requires Agrees(s.server, s.last)
    ensures Recovers(s, current) <==> ChangedKeys(current, s.last) == {}
  {
    if ChangedKeys(current, s.last) == {} {
      forall kept: set<string>, rounds: seq<Round>, r: Round |
        FailuresStoreNothing(rounds + [r]) && Good(Run(Poll(s, current, Failed(kept)), rounds), r)
        ensures Agrees(Run(Poll(s, current, Failed(kept)), rounds + [r]).server, r.current)
      {
        UnchangedHarmless(s, current, kept);
        UpToDate(Poll(s, current, Failed(kept)), rounds, r);
      }
    } else {
      var key :| key in ChangedKeys(current, s.last);
      TakenBack(s, current, key);
      var r, none := Round(s.last, Stored), [];
      assert none + [r] == [r] && FailuresStoreNothing([r]);
      assert Run(Poll(s, current, Failed({key})), none) == Poll(s, current, Failed({key}));
    }
  }

  // Every failing store that kept anything met a directory without changes of
  // known files.
  predicate SafeFailures(s: Sync, rounds: seq<Round>) {
    forall i | 0 <= i < |rounds| && rounds[i].outcome.Failed? && rounds[i].outcome.kept != {} ::
      ChangedKeys(rounds[i].current, Run(s, rounds[..i]).last) == {}
  }

  lemma SafePrefix(s: Sync, rounds: seq<Round>)
    requires rounds != [] && SafeFailures(s, rounds)
    ensures SafeFailures(s, rounds[..|rounds| - 1])
  {
    var before := rounds[..|rounds| - 1];
    forall i | 0 <= i < |before| && before[i].outcome.Failed? && before[i].outcome.kept != {}
      ensures ChangedKeys(before[i].current, Run(s, before[..i]).last) == {}
    {
      assert before[..i] == rounds[..i];
    }
  }

  lemma {:induction false} AgreesOverRun(s: Sync, rounds: seq<Round>)
    requires Agrees(s.server, s.last) && SafeFailures(s, rounds)
    ensures Agrees(Run(s, rounds).server, Run(s, rounds).last)
  {
    if rounds != [] {
      var n := |rounds| - 1;
      SafePrefix(s, rounds);
      AgreesOverRun(s, rounds[..n]);
      var s', r := Run(s, rounds[..n]), rounds[n];
      match r.outcome
      case Stored => PollAgrees(s', r);
      case Failed(kept) =>
        if kept == {} {
          PollAgrees(s', r);
        } else {
          UnchangedHarmless(s', r.current, kept);
        }
    }
  }

  // Over whole runs with partial failures of that kind, the server is up to
  // date after every good round.
  lemma UpToDateDespiteFailures(s: Sync, rounds: seq<Round>, r: Round)
    requires Agrees(s.server, s.last) && SafeFailures(s, rounds) && Good(Run(s, rounds), r)
    ensures Agrees(Run(s, rounds + [r]).server, r.current)
  {
    AgreesOverRun(s, rounds);
    assert (rounds + [r])[..|rounds|] == rounds;
    var s' := Run(s, rounds);
    PollGood(s', r);
  }

  // A run whose last round is good, after partial failures of that kind at most.
  predicate GoodEnd(s: Sync, rounds: seq<Round>) {
    rounds != [] && GoodAfter(s, rounds[..|rounds| - 1], rounds[|rounds| - 1])
  }

  predicate GoodAfter(s: Sync, rounds: seq<Round>, r: Round) {
    Agrees(s.server, s.last) && SafeFailures(s, rounds) && Good(Run(s, rounds), r)
  }

  // Then every file of the last directory is on the server with its content.
  lemma DirectoryShown(s: Sync, rounds: seq<Round>, files: seq<File>)
    requires GoodEnd(s, rounds) && rounds[|rounds| - 1].current == Contents(files) && DistinctNames(files)
    ensures Shows(Run(s, rounds).server, files)
  {
    var before, r := rounds[..|rounds| - 1], rounds[|rounds| - 1];
    AgreesOverRun(s, before);
    PollGood(Run(s, before), r);
    AgreesShows(Run(s, rounds).server, files);
  }

  // What the server holds was there from the start, or is the content that a
  // file of that name had in some round.
  lemma {:induction false} FieldsAreContents(s: Sync, rounds: seq<Round>, name: string)
    requires name in Run(s, rounds).server
    ensures (name in s.server && s.server[name] == Run(s, rounds).server[name])
         || exists r | r in rounds :: name in r.current && r.current[name] == Run(s, rounds).server[name]
  {
    if rounds != [] {
      var n := |rounds| - 1;
      var s', r := Run(s, rounds[..n]), rounds[n];
      if name in DataToSend(r.current, s'.last) && Run(s, rounds).server[name] == r.current[name] {
        assert r in rounds;
      } else {
        assert name in s'.server && s'.server[name] == Run(s, rounds).server[name];
        FieldsAreContents(s, rounds[..n], name);
      }
    }
  }

  lemma PollGood(s: Sync, r: Round)
    requires Agrees(s.server, s.last) && Good(s, r)
    ensures Agrees(Poll(s, r.current, r.outcome).server, r.current)
  {
    PollAgrees(s, Round(r.current, Stored));
  }

  // And as soon as one fails at a changed file, there are a kept field and a
  // further round after which a good poll leaves the server wrong.
  lemma StaleAfterChangedFailure(s: Sync, rounds: seq<Round>, current: Data)
    requires Agrees(s.server, s.last) && SafeFailures(s, rounds)
    requires ChangedKeys(current, Run(s, rounds).last) != {}
    ensures exists kept: set<string>, r: Round ::
      Good(Run(s, rounds + [Round(current, Failed(kept))]), r)
      && !Agrees(Run(s, rounds + [Round(current, Failed(kept)), r]).server, r.current)
  {
    AgreesOverRun(s, rounds);
    var s' := Run(s, rounds);
    var key :| key in ChangedKeys(current, s'.last);
    TakenBack(s', current, key);
    var kept := {key};
    var failing, r := Round(current, Failed(kept)), Round(s'.last, Stored);
    RunSnoc(s, rounds, failing);
    assert rounds + [failing, r] == (rounds + [failing]) + [r];
    RunSnoc(s, rounds + [failing], r);
    RunSnoc(Poll(s', current, Failed(kept)), [], r);
  }

  lemma RunSnoc(s: Sync, rounds: seq<Round>, r: Round)
    ensures Run(s, rounds + [r]) == Poll(Run(s, rounds), r.current, r.outcome)
  {
    assert (rounds + [r])[..|rounds|] == rounds;
  }

  // A concrete case: an edit that is taken back is never sent again: the server keeps
  // showing a content that the file no longer has.
  lemma StaleAfterPartialFailure(name: string, a: string, b: string)
    requires a != b
    ensures var s := Sync(map[name := a], map[name := a]);
      var s' := Run(s, [Round(map[name := b], Failed({name})), Round(map[name := a], Stored)]);
      name in s'.server && s'.server[name] == b
  {
    var s := Sync(map[name := a], map[name := a]);
    var rounds := [Round(map[name := b], Failed({name})), Round(map[name := a], Stored)];
    assert DataToSend(map[name := b], s.last) == map[name := b];
    assert rounds[..1] == [rounds[0]] && rounds[..1][..0] == [];
    assert Run(s, rounds[..1]) == Poll(s, rounds[0].current, rounds[0].outcome);
    var s1 := Run(s, rounds[..1]);
    assert name in DataToSend(map[name := b], s.last);
    assert s1 == Sync(map[name := a], map[name := b]);
    assert DataToSend(map[name := a], s1.last) == map[];
  }
}
