/** Crashes during a save or delete of src/chrondb/storage/durable.clj, and what src/chrondb/wal/recovery.clj makes of
    them when the storage is opened again.

    The log is kept in the order of its timestamps.  Storage operations and the log itself do not fail; the index may,
    except during recovery.  The index here commits each write at once, as src/chrondb/index/lucene.clj does, so that a
    crash takes none from it; one that commits now and then is the subject of BufferedIndex.
 */
module WalRecovery {
  datatype Id = Id(name: string)
  datatype Branch = Branch(name: string)
  datatype Text = Text(json: string)
  datatype Key = Key(branch: Branch, id: Id)

  type Docs = map<Key, Text>
  type Index = map<Id, multiset<Text>>  // without branches; saving adds an entry, deleting drops all

  datatype Job = Save(branch: Branch, id: Id, text: Text) | Delete(branch: Branch, id: Id)

  datatype Phase = Pending | GitCommitted | IndexCommitted | Completed | RolledBack

  datatype Entry = Entry(job: Job, phase: Phase)

  datatype State = State(docs: Docs, index: Index, wal: seq<Entry>)

  function Stored(docs: Docs, job: Job): Docs {
    match job
    case Save(branch, id, text) => docs[Key(branch, id) := text]
    case Delete(branch, id) => docs - {Key(branch, id)}
  }

  function Entries(index: Index, id: Id): multiset<Text> {
    if id in index then index[id] else multiset{}
  }

  function Indexed(index: Index, job: Job): Index {
    match job
    case Save(_, id, text) => index[id := Entries(index, id) + multiset{text}]
    case Delete(_, id) => index - {id}
  }

  // ---------- one job, step by step ----------

  /** The steps of a job: log it, store it, mark that, index it, mark that, mark it complete. */
  const STEPS := 6

  /** How the index takes the job: Lucene swallows its failures; an index that throws is logged and passed over. */
  datatype Indexing = Works | Swallows | Throws

  /** What the log says of a job after n of its steps. */
  function Marked(indexing: Indexing, n: nat): Phase
    requires 1 <= n <= STEPS
  {
    if n < 3 then Pending
    else if n == STEPS then Completed
    else if n == 5 && !indexing.Throws? then IndexCommitted
    else GitCommitted
  }

  /** What the first n steps have done. */
  function After(s: State, job: Job, indexing: Indexing, n: nat): State
    requires n <= STEPS
  {
    if n == 0 then s
    else
      State(
        if n >= 2 then Stored(s.docs, job) else s.docs,
        if n >= 4 && indexing.Works? then Indexed(s.index, job) else s.index,
        s.wal + [Entry(job, Marked(indexing, n))])
  }

  // ---------- recovery ----------

  predicate Unfinished(e: Entry) {
    !e.phase.Completed? && !e.phase.RolledBack?
  }

  /** `recover-entry!` */
  function RecoverEntry(s: State, e: Entry): State {
    match e.phase
    case Pending => State(Stored(s.docs, e.job), s.index, s.wal + [Entry(e.job, GitCommitted)])
    case GitCommitted => State(s.docs, Indexed(s.index, e.job), s.wal)
    case IndexCommitted => s
    case Completed => s
    case RolledBack => s
  }

  /** The entries one after the other; those that come to an end are dropped from the log. */
  function RecoverFrom(s: State, entries: seq<Entry>): State {
    if entries == [] then s
    else RecoverEntry(RecoverFrom(s, entries[..|entries| - 1]), entries[|entries| - 1])
  }

  predicate Settled(s: State) {
    forall k :: 0 <= k < |s.wal| ==> !Unfinished(s.wal[k])
  }

  /** `recover!`, which leaves a log without unfinished entries as it is. */
  function Recover(s: State): State {
    if Settled(s) then s else RecoverFrom(State(s.docs, s.index, []), s.wal)
  }

  lemma {:induction false} RecoverAppend(s: State, entries: seq<Entry>, e: Entry)
    ensures RecoverFrom(s, entries + [e]) == RecoverEntry(RecoverFrom(s, entries), e)
  {
  }

  lemma {:induction false} RecoverSplit(s: State, first: seq<Entry>, rest: seq<Entry>)
    ensures RecoverFrom(s, first + rest) == RecoverFrom(RecoverFrom(s, first), rest)
  {
    if rest == [] {
      assert first + rest == first;
    } else {
      var front, last := rest[..|rest| - 1], rest[|rest| - 1];
      RecoverSplit(s, first, front);
      RecoverAppend(s, first + front, last);
      assert first + front + [last] == first + rest;
    }
  }

  lemma {:induction false} FinishedAreSkipped(s: State, entries: seq<Entry>)
    requires forall k :: 0 <= k < |entries| ==> !Unfinished(entries[k])
    ensures RecoverFrom(s, entries) == s
  {
    if entries != [] {
      FinishedAreSkipped(s, entries[..|entries| - 1]);
    }
  }

  // ---------- whatever is in the log ----------

  /** Recovery leaves only entries that still have to be indexed. */
  lemma {:induction false} RecoveryLeavesCommitted(s: State, entries: seq<Entry>)
    requires forall k :: 0 <= k < |s.wal| ==> s.wal[k].phase.GitCommitted?
    ensures forall k :: 0 <= k < |RecoverFrom(s, entries).wal| ==> RecoverFrom(s, entries).wal[k].phase.GitCommitted?
  {
    if entries != [] {
      RecoveryLeavesCommitted(s, entries[..|entries| - 1]);
    }
  }

  lemma {:induction false} CommittedAreEnded(s: State, entries: seq<Entry>)
    requires forall k :: 0 <= k < |entries| ==> entries[k].phase.GitCommitted?
    ensures RecoverFrom(s, entries).wal == s.wal && RecoverFrom(s, entries).docs == s.docs
  {
    if entries != [] {
      CommittedAreEnded(s, entries[..|entries| - 1]);
    }
  }

  lemma {:induction false} FirstLeavesCommitted(s: State)
    requires !Settled(s)
    ensures forall k :: 0 <= k < |Recover(s).wal| ==> Recover(s).wal[k].phase.GitCommitted?
  {
    RecoveryLeavesCommitted(State(s.docs, s.index, []), s.wal);
  }

  lemma {:induction false} SecondEndsCommitted(s: State)
    requires forall k :: 0 <= k < |s.wal| ==> s.wal[k].phase.GitCommitted?
    ensures Recover(s).wal == [] && Recover(s).docs == s.docs
  {
    if s.wal != [] {
      assert Unfinished(s.wal[0]);
      CommittedAreEnded(State(s.docs, s.index, []), s.wal);
    }
  }

  /** From any state, two recoveries finish every entry, and the second stores nothing that the first has not; and they
      empty the log if and only if it was empty or had an unfinished entry. */
  lemma {:induction false} TwoRecoveriesSettle(s: State)
    ensures Settled(Recover(Recover(s))) && Recover(Recover(s)).docs == Recover(s).docs
    ensures Recover(Recover(s)).wal == [] <==> s.wal == [] || !Settled(s)
  {
    if !Settled(s) {
      FirstLeavesCommitted(s);
      SecondEndsCommitted(Recover(s));
    }
  }

  // ---------- a crash at any step ----------

  lemma {:induction false} RecoverLast(s: State, job: Job, indexing: Indexing, n: nat)
    requires Settled(s) && 1 <= n <= STEPS
    ensures var crashed := After(s, job, indexing, n);
            Recover(crashed) == if n == STEPS then crashed
                                else RecoverEntry(State(crashed.docs, crashed.index, []),
                                                  Entry(job, Marked(indexing, n)))
  {
    var crashed := After(s, job, indexing, n);
    var start := State(crashed.docs, crashed.index, []);
    FinishedAreSkipped(start, s.wal);
    RecoverAppend(start, s.wal, crashed.wal[|s.wal|]);
    assert Settled(crashed) <==> !Unfinished(crashed.wal[|s.wal|]);
  }

  lemma {:induction false} RecoverFirst(s: State, e: Entry)
    requires s.wal != [] && s.wal[0] == e && Unfinished(e)
    requires forall k :: 1 <= k < |s.wal| ==> !Unfinished(s.wal[k])
    ensures Recover(s) == RecoverEntry(State(s.docs, s.index, []), e)
  {
    var start := State(s.docs, s.index, []);
    assert s.wal == [e] + s.wal[1..];
    RecoverSplit(start, [e], s.wal[1..]);
    RecoverAppend(start, [], e);
    assert [] + [e] == [e];
    FinishedAreSkipped(RecoverFrom(start, [e]), s.wal[1..]);
  }

  lemma {:induction false} OnlyIndexes(s: State, job: Job)
    requires s.wal == [Entry(job, GitCommitted)]
    ensures Recover(s) == State(s.docs, Indexed(s.index, job), [])
  {
    RecoverFirst(s, Entry(job, GitCommitted));
  }

  lemma {:induction false} StoringTwice(docs: Docs, job: Job)
    ensures Stored(Stored(docs, job), job) == Stored(docs, job)
  {
  }

  /** What a recovery, or two, leave of the log if the job had crashed after n steps. */
  function LogLeft(s: State, job: Job, n: nat, open: seq<Entry>): seq<Entry> {
    if n == 0 then s.wal
    else if n <= 2 then open
    else if n == STEPS then s.wal + [Entry(job, Completed)]
    else []
  }

  /** What one recovery makes of a crash after n steps: the document is stored if the job was logged at all; the index
      has it if it was indexed or marked stored, twice if the crash came between indexing and its mark; and it is
      still missing, with the entry still in the log, exactly if the crash came before the store was marked. */
  lemma {:induction false} OneRecovery(s: State, job: Job, n: nat)
    requires Settled(s) && 1 <= n <= STEPS
    ensures var r := Recover(After(s, job, Works, n));
            && r.docs == Stored(s.docs, job)
            && r.index == (if n <= 2 then s.index
                           else if n == 4 then Indexed(Indexed(s.index, job), job)
                           else Indexed(s.index, job))
            && r.wal == LogLeft(s, job, n, [Entry(job, GitCommitted)])
  {
    RecoverLast(s, job, Works, n);
    StoringTwice(s.docs, job);
  }

  /** A second one brings the rest: all or nothing, for every crash, but for the entry made twice. */
  lemma {:induction false} TwoRecoveries(s: State, job: Job, n: nat)
    requires Settled(s) && n <= STEPS
    ensures var r := Recover(Recover(After(s, job, Works, n)));
            && r.wal == LogLeft(s, job, n, [])
            && if n == 0 then r.docs == s.docs && r.index == s.index
               else r.docs == Stored(s.docs, job)
                    && r.index == if n == 4 then Indexed(Indexed(s.index, job), job) else Indexed(s.index, job)
  {
    if n > 0 {
      OneRecovery(s, job, n);
      var r := Recover(After(s, job, Works, n));
      if n <= 2 {
        OnlyIndexes(r, job);
      } else {
        assert Settled(r);
      }
    }
  }

  /** The step after which a failure of the index is forgotten: its log entry says more than was done. */
  function Forgotten(indexing: Indexing): nat {
    if indexing.Throws? then 6 else 5
  }

  /** A failure of the index is mended, by two recoveries or ever, if and only if a crash comes before the log entry is
      marked indexed, if the failure was swallowed, or complete, if it was logged as one to be recovered. */
  lemma {:induction false} FailedIndexIsRecoveredIff(s: State, job: Job, indexing: Indexing, n: nat)
    requires Settled(s) && 1 <= n <= STEPS && !indexing.Works?
    ensures var r := Recover(Recover(After(s, job, indexing, n)));
            && r.docs == Stored(s.docs, job) && r.wal == LogLeft(s, job, n, [])
            && r.index == if n < Forgotten(indexing) then Indexed(s.index, job) else s.index
  {
    var r := FailedIndexOnce(s, job, indexing, n);
    if n <= 2 {
      OnlyIndexes(r, job);
    } else {
      assert Recover(r) == r;
    }
  }

  lemma {:induction false} FailedIndexOnce(s: State, job: Job, indexing: Indexing, n: nat) returns (r: State)
    requires Settled(s) && 1 <= n <= STEPS && !indexing.Works?
    ensures r == Recover(After(s, job, indexing, n)) && r.docs == Stored(s.docs, job)
    ensures r.index == if 3 <= n < Forgotten(indexing) then Indexed(s.index, job) else s.index
    ensures r.wal == LogLeft(s, job, n, [Entry(job, GitCommitted)]) && (n > 2 ==> Settled(r))
  {
    RecoverLast(s, job, indexing, n);
    StoringTwice(s.docs, job);
    r := Recover(After(s, job, indexing, n));
  }

  // ---------- work between the two recoveries ----------

  function Complete(s: State, jobs: seq<Job>): State {
    if jobs == [] then s
    else After(Complete(s, jobs[..|jobs| - 1]), jobs[|jobs| - 1], Works, STEPS)
  }

  function AllIndexed(index: Index, jobs: seq<Job>): Index {
    if jobs == [] then index else Indexed(AllIndexed(index, jobs[..|jobs| - 1]), jobs[|jobs| - 1])
  }

  function AllStored(docs: Docs, jobs: seq<Job>): Docs {
    if jobs == [] then docs else Stored(AllStored(docs, jobs[..|jobs| - 1]), jobs[|jobs| - 1])
  }

  lemma {:induction false} CompleteDoesAll(s: State, jobs: seq<Job>)
    ensures var t := Complete(s, jobs);
            && t.docs == AllStored(s.docs, jobs) && t.index == AllIndexed(s.index, jobs)
            && |t.wal| >= |s.wal| && t.wal[..|s.wal|] == s.wal
            && forall k :: |s.wal| <= k < |t.wal| ==> t.wal[k].phase.Completed?
  {
    if jobs != [] {
      CompleteDoesAll(s, jobs[..|jobs| - 1]);
    }
  }

  /** A job that crashed before its store was marked is indexed by the second recovery only, after the jobs done in
      between; in the storage it comes before them. */
  lemma {:induction false} IndexedLate(s: State, job: Job, n: nat, jobs: seq<Job>)
    requires Settled(s) && 1 <= n <= 2
    ensures var r := Recover(Complete(Recover(After(s, job, Works, n)), jobs));
            && r.docs == AllStored(Stored(s.docs, job), jobs)
            && r.index == Indexed(AllIndexed(s.index, jobs), job)
            && r.wal == []
  {
    OneRecovery(s, job, n);
    var first := Recover(After(s, job, Works, n));
    CompleteDoesAll(first, jobs);
    RecoverFirst(Complete(first, jobs), Entry(job, GitCommitted));
  }

  predicate DeletesOf(id: Id, jobs: seq<Job>) {
    exists k :: 0 <= k < |jobs| && jobs[k].Delete? && jobs[k].id == id
  }

  /** The last job on the id is a save. */
  predicate EndsSaved(id: Id, jobs: seq<Job>) {
    jobs != [] &&
    var last := jobs[|jobs| - 1];
    if last.id == id then last.Save? else EndsSaved(id, jobs[..|jobs| - 1])
  }

  lemma {:induction false} DeletesStep(id: Id, front: seq<Job>, last: Job)
    ensures DeletesOf(id, front + [last]) <==> DeletesOf(id, front) || (last.Delete? && last.id == id)
  {
    if last.Delete? && last.id == id {
      assert (front + [last])[|front|] == last;
    }
    if k :| 0 <= k < |front| && front[k].Delete? && front[k].id == id {
      assert (front + [last])[k] == front[k];
    }
  }

  lemma {:induction false} Updates<K, V>(m: map<K, V>, k: K, v: V, l: K, w: V)
    ensures k != l ==> m[k := v][l := w] == m[l := w][k := v]
    ensures m[k := v][k := w] == m[k := w]
    ensures m[k := v] - {k} == m - {k}
    ensures k != l ==> m[k := v] - {l} == (m - {l})[k := v]
  {
  }

  lemma {:induction false} TwoSaves(index: Index, one: Job, two: Job)
    requires one.Save? && two.Save?
    ensures Indexed(Indexed(index, one), two) == Indexed(Indexed(index, two), one)
  {
    var entries1, entries2 := Entries(index, one.id), Entries(index, two.id);
    if one.id == two.id {
      assert entries1 + multiset{one.text} + multiset{two.text} == entries1 + multiset{two.text} + multiset{one.text};
      Updates(index, one.id, entries1 + multiset{one.text}, one.id, entries1 + multiset{one.text} + multiset{two.text});
      Updates(index, one.id, entries1 + multiset{two.text}, one.id, entries1 + multiset{two.text} + multiset{one.text});
    } else {
      Updates(index, one.id, entries1 + multiset{one.text}, two.id, entries2 + multiset{two.text});
    }
  }

  lemma {:induction false} SaveThenDelete(index: Index, save: Job, delete: Job)
    requires save.Save? && delete.Delete?
    ensures Indexed(Indexed(index, save), delete)
         == if delete.id == save.id then Indexed(index, delete) else Indexed(Indexed(index, delete), save)
  {
  }

  /** A save commutes with everything but a delete of its id, which wipes it out. */
  lemma {:induction false} SavesCommute(index: Index, save: Job, job: Job)
    requires save.Save?
    ensures Indexed(Indexed(index, save), job)
         == if job.Delete? && job.id == save.id then Indexed(index, job) else Indexed(Indexed(index, job), save)
  {
    if job.Save? {
      TwoSaves(index, save, job);
    } else {
      SaveThenDelete(index, save, job);
    }
  }

  lemma {:induction false} LateSave(index: Index, job: Job, jobs: seq<Job>)
    requires job.Save?
    ensures AllIndexed(Indexed(index, job), jobs)
         == if DeletesOf(job.id, jobs) then AllIndexed(index, jobs) else Indexed(AllIndexed(index, jobs), job)
  {
    if jobs != [] {
      var front, last := jobs[..|jobs| - 1], jobs[|jobs| - 1];
      LateSave(index, job, front);
      DeletesStep(job.id, front, last);
      assert front + [last] == jobs;
      SavesCommute(AllIndexed(index, front), job, last);
    }
  }

  lemma {:induction false} LateDelete(index: Index, job: Job, jobs: seq<Job>)
    requires job.Delete?
    ensures var wiped := AllIndexed(Indexed(index, job), jobs);
            && (forall id :: id != job.id ==> Entries(wiped, id) == Entries(AllIndexed(index, jobs), id)
                                              && (id in wiped <==> id in AllIndexed(index, jobs)))
            && (job.id in wiped <==> EndsSaved(job.id, jobs))
  {
    if jobs != [] {
      LateDelete(index, job, jobs[..|jobs| - 1]);
    }
  }

  /** Being indexed late makes a difference if and only if, in between, the id of a late save was deleted, or the id of
      a late delete was left saved: then the index finds a deleted document, or misses a saved one. */
  lemma {:induction false} LateIsHarmlessIff(index: Index, job: Job, jobs: seq<Job>)
    ensures Indexed(AllIndexed(index, jobs), job) == AllIndexed(Indexed(index, job), jobs)
       <==> if job.Save? then !DeletesOf(job.id, jobs) else !EndsSaved(job.id, jobs)
  {
    var late, soon := Indexed(AllIndexed(index, jobs), job), AllIndexed(Indexed(index, job), jobs);
    if job.Save? {
      LateSave(index, job, jobs);
      assert |Entries(late, job.id)| == |Entries(AllIndexed(index, jobs), job.id)| + 1;
    } else {
      LateDelete(index, job, jobs);
      if !EndsSaved(job.id, jobs) {
        forall id ensures (id in late <==> id in soon) && (id in late ==> late[id] == soon[id]) {
          assert id != job.id ==> Entries(soon, id) == Entries(AllIndexed(index, jobs), id);
        }
        assert late == soon;
      }
    }
  }

  /** So a job that crashed before its store was marked, work after the restart, and another restart leave the storage
      that the same work leaves without a crash; and the same index if and only if being late made no difference. */
  lemma {:induction false} CrashIsMendedIff(s: State, job: Job, n: nat, jobs: seq<Job>)
    requires Settled(s) && 1 <= n <= 2
    ensures var mended := Recover(Complete(Recover(After(s, job, Works, n)), jobs));
            var smooth := Complete(After(s, job, Works, STEPS), jobs);
            && mended.docs == smooth.docs
            && (mended.index == smooth.index <==>
                  if job.Save? then !DeletesOf(job.id, jobs) else !EndsSaved(job.id, jobs))
  {
    IndexedLate(s, job, n, jobs);
    CompleteDoesAll(After(s, job, Works, STEPS), jobs);
    LateIsHarmlessIff(s.index, job, jobs);
  }

  // ---------- what the documents and the index then hold ----------

  predicate Touches(job: Job, key: Key) {
    job.branch == key.branch && job.id == key.id
  }

  /** Each document is what the last job on it made of it. */
  lemma {:induction false} LastJobDecides(docs: Docs, jobs: seq<Job>, i: nat, key: Key)
    requires i < |jobs| && Touches(jobs[i], key) && forall j :: i < j < |jobs| ==> !Touches(jobs[j], key)
    ensures var after := AllStored(docs, jobs);
            if jobs[i].Save? then key in after && after[key] == jobs[i].text else key !in after
  {
    if i < |jobs| - 1 {
      LastJobDecides(docs, jobs[..|jobs| - 1], i, key);
    }
  }

  lemma {:induction false} OthersStay(docs: Docs, jobs: seq<Job>, key: Key)
    requires forall j :: 0 <= j < |jobs| ==> !Touches(jobs[j], key)
    ensures var after := AllStored(docs, jobs);
            (key in after <==> key in docs) && (key in docs ==> after[key] == docs[key])
  {
    if jobs != [] {
      OthersStay(docs, jobs[..|jobs| - 1], key);
    }
  }

  function Saves(jobs: seq<Job>, id: Id, text: Text): nat {
    if jobs == [] then 0
    else
      var last := jobs[|jobs| - 1];
      Saves(jobs[..|jobs| - 1], id, text) + if last.Save? && last.id == id && last.text == text then 1 else 0
  }

  lemma {:induction false} SavesAddEntries(index: Index, jobs: seq<Job>, id: Id, text: Text)
    requires forall j :: 0 <= j < |jobs| ==> !(jobs[j].Delete? && jobs[j].id == id)
    ensures Entries(AllIndexed(index, jobs), id)[text] == Entries(index, id)[text] + Saves(jobs, id, text)
  {
    if jobs != [] {
      SavesAddEntries(index, jobs[..|jobs| - 1], id, text);
    }
  }

  lemma {:induction false} IndexedSplit(index: Index, first: seq<Job>, rest: seq<Job>)
    ensures AllIndexed(index, first + rest) == AllIndexed(AllIndexed(index, first), rest)
  {
    if rest == [] {
      assert first + rest == first;
    } else {
      IndexedSplit(index, first, rest[..|rest| - 1]);
      assert (first + rest)[..|first + rest| - 1] == first + rest[..|rest| - 1];
    }
  }

  /** Whatever their branch, an id has one entry for each save of that text since it was last deleted. */
  lemma {:induction false} EntriesSinceDelete(index: Index, jobs: seq<Job>, i: nat, id: Id, text: Text)
    requires i < |jobs| && jobs[i].Delete? && jobs[i].id == id
    requires forall j :: i < j < |jobs| ==> !(jobs[j].Delete? && jobs[j].id == id)
    ensures Entries(AllIndexed(index, jobs), id)[text] == Saves(jobs[i + 1..], id, text)
  {
    var first, rest := jobs[..i + 1], jobs[i + 1..];
    assert jobs == first + rest && first[..i] == jobs[..i];
    IndexedSplit(index, first, rest);
    SavesAddEntries(AllIndexed(index, first), rest, id, text);
  }
}
