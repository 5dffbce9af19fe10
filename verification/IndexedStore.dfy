/** A concrete library: documents by branch and id, and an index that saving only ever adds to, as in
    src/chrondb/lib/core.clj and src/chrondb/index/lucene.clj.  Opening the database deletes and adds again the index
    entries of every document of the default branch, so that reopening can change what a search finds.

    How searches match index entries, how results are printed and what the other commands do are parameters.
 */
module IndexedStore {
  import opened Wrappers
  import opened ChronDBLib
  import opened Handlers
  import opened Worker
  import Sequential
  import opened Transparency

  type Id = string
  type Text = string
  type Docs = map<string, map<Id, Text>>
  type Index = map<Id, multiset<Text>>

  /** Documents by branch; index entries carry no branch, and an id can have several. */
  datatype Store = Store(docs: Docs, index: Index)

  /** `document` is the document that an id and a JSON text make, if the text is an object or null; `elsewhere` are the
      commands that neither search the index nor keep it up to date. */
  datatype Engine = Engine(
    document: (Id, string) -> Option<Text>,
    search: (string, Index) -> multiset<Id>,
    selects: string -> bool,
    showHits: (multiset<Id>, map<Id, Text>) -> string,
    showRows: map<Id, Text> -> string,
    elsewhere: (Docs, Op, seq<string>, Option<string>) -> (Docs, Outcome),
    parses: string -> bool)

  const MAIN := "main"

  function BranchName(branch: Option<string>): string {
    if branch.Some? then branch.value else MAIN
  }

  function DocsOf(docs: Docs, branch: string): map<Id, Text> {
    if branch in docs then docs[branch] else map[]
  }

  function Entries(index: Index, id: Id): multiset<Text> {
    if id in index then index[id] else multiset{}
  }

  /** `ensure-index-populated` */
  function Reindexed(s: Store): Store {
    s.(index := s.index + map id | id in DocsOf(s.docs, MAIN) :: multiset{DocsOf(s.docs, MAIN)[id]})
  }

  function Save(s: Store, branch: string, id: Id, text: Text): Store {
    Store(s.docs[branch := DocsOf(s.docs, branch)[id := text]],
          s.index[id := Entries(s.index, id) + multiset{text}])
  }

  /** The index forgets the id, whatever the branch. */
  function Remove(s: Store, branch: string, id: Id): Store {
    Store(s.docs[branch := DocsOf(s.docs, branch) - {id}], s.index - {id})
  }

  /** The ids found, and what the branch holds under them now: nothing is filtered again. */
  function Rows(hits: multiset<Id>, docs: map<Id, Text>): map<Id, Text> {
    map id | id in docs && id in hits :: docs[id]
  }

  predicate Selects(g: Engine, op: Op, args: seq<string>) {
    op.ExecuteSql? && |args| == 1 && g.selects(args[0])
  }

  function RunOne(g: Engine, s: Store, op: Op, args: seq<string>, branch: Option<string>): (Store, Outcome) {
    var name := BranchName(branch);
    if op.Put? && |args| == 2 then
      var document := g.document(args[0], args[1]);
      if document.Some? then (Save(s, name, args[0], document.value), ReturnsString(document.value))
      else (s, ReturnsOther)
    else if op.Delete? && |args| == 1 then
      if args[0] in DocsOf(s.docs, name) then (Remove(s, name, args[0]), ReturnsNumber(0)) else (s, ReturnsNumber(1))
    else if op.Query? && |args| == 1 then
      (s, ReturnsString(g.showHits(g.search(args[0], s.index), DocsOf(s.docs, name))))
    else if Selects(g, op, args) then
      (s, ReturnsString(g.showRows(Rows(g.search(args[0], s.index), DocsOf(s.docs, name)))))
    else
      var (docs, outcome) := g.elsewhere(s.docs, op, args, branch);
      (s.(docs := docs), if outcome.Throws? then ReturnsOther else outcome)  // everything is caught
  }

  function LibraryOf(g: Engine): Library<Store> {
    Library((s, op, args, branch) => RunOne(g, s, op, args, branch), s => Reindexed(s), g.parses)
  }

  lemma {:induction false} NothingIsThrown(g: Engine)
    ensures Contained(LibraryOf(g))
  {
  }

  // ---------- what callers are told ----------

  predicate Holds(s: Store, branch: Option<string>, id: Id) {
    var name := if branch.Some? then branch.value else "main";
    name in s.docs && id in s.docs[name]
  }

  predicate SameDocument(s: Store, s': Store, name: string, id: Id) {
    && (Holds(s', Some(name), id) <==> Holds(s, Some(name), id))
    && (Holds(s, Some(name), id) && Holds(s', Some(name), id) ==> s'.docs[name][id] == s.docs[name][id])
  }

  ghost predicate SameDocuments(s: Store, s': Store, name: string) {
    forall id :: SameDocument(s, s', name, id)
  }

  /** All other documents of all branches are as they were. */
  ghost predicate OthersKept(s: Store, s': Store, branch: Option<string>, id: Id) {
    forall name: string, other: Id ::
      !(name == (if branch.Some? then branch.value else "main") && other == id) ==> SameDocument(s, s', name, other)
  }

  lemma {:induction false} RemoveTakesOne(s: Store, branch: Option<string>, id: Id)
    ensures var after := Remove(s, BranchName(branch), id);
            !Holds(after, branch, id) && OthersKept(s, after, branch, id)
  {
  }

  lemma {:induction false} SaveMakesOne(s: Store, branch: Option<string>, id: Id, text: Text)
    ensures var after := Save(s, BranchName(branch), id, text);
            && Holds(after, branch, id) && OthersKept(s, after, branch, id)
            && after.docs[if branch.Some? then branch.value else "main"][id] == text
  {
  }

  lemma {:induction false} DeleteOnce(g: Engine, s: Store, slot: Option<string>, id: Id, branch: Option<string>)
    requires NulFree([id], branch)
    ensures Execute(LibraryOf(g), s, slot, Call(Delete, [id], branch))
         == if Holds(s, branch, id) then (Remove(s, BranchName(branch), id), slot, Done)
            else (s, slot, Failed(NotFound))
  {
    OutcomeDecidesReply(LibraryOf(g), s, slot, Delete, [id], branch);
  }

  /** A delete is done if and only if the document was on the branch, and not found otherwise; either way it is not
      there any more, so that the same delete again is not found; and nothing else is touched. */
  lemma {:induction false} DeleteIsTold(g: Engine, s: Store, slot: Option<string>, id: Id, branch: Option<string>)
    requires NulFree([id], branch)
    ensures var (after, slot', reply) := Execute(LibraryOf(g), s, slot, Call(Delete, [id], branch));
            && reply == (if Holds(s, branch, id) then Done else Failed(NotFound))
            && slot' == slot && !Holds(after, branch, id) && OthersKept(s, after, branch, id)
            && Execute(LibraryOf(g), after, slot', Call(Delete, [id], branch)) == (after, slot', Failed(NotFound))
  {
    DeleteOnce(g, s, slot, id, branch);
    RemoveTakesOne(s, branch, id);
    var after := Execute(LibraryOf(g), s, slot, Call(Delete, [id], branch)).0;
    DeleteOnce(g, after, slot, id, branch);
  }

  lemma {:induction false} PutOnce(g: Engine, s: Store, slot: Option<string>, id: Id, json: string,
                                   branch: Option<string>, text: Text)
    requires NulFree([id, json], branch) && g.document(id, json) == Some(text)
    ensures Execute(LibraryOf(g), s, slot, Call(Put, [id, json], branch))
         == (Save(s, BranchName(branch), id, text), slot, if g.parses(text) then Value(text) else Failed(JsonError))
  {
    OutcomeDecidesReply(LibraryOf(g), s, slot, Put, [id, json], branch);
  }

  /** A put that makes a document is answered with it, if it parses, and leaves just it on the branch, so that a delete
      is then done; any other put is refused and leaves the store. */
  lemma {:induction false} PutIsTold(g: Engine, s: Store, slot: Option<string>, id: Id, json: string,
                                     branch: Option<string>)
    requires NulFree([id, json], branch)
    ensures var (after, slot', reply) := Execute(LibraryOf(g), s, slot, Call(Put, [id, json], branch));
            match g.document(id, json)
            case Some(text) =>
              && reply == (if g.parses(text) then Value(text) else Failed(JsonError))
              && slot' == slot && Holds(after, branch, id) && OthersKept(s, after, branch, id)
              && after.docs[if branch.Some? then branch.value else "main"][id] == text
              && Execute(LibraryOf(g), after, slot', Call(Delete, [id], branch)).2 == Done
            case None => reply == Failed(OperationFailed("put returned null")) && after == s && slot' == None
  {
    match g.document(id, json)
    case Some(text) =>
      PutOnce(g, s, slot, id, json, branch, text);
      SaveMakesOne(s, branch, id, text);
      assert [id, json][0] == id && NulFree([id], branch);
      DeleteOnce(g, Save(s, BranchName(branch), id, text), slot, id, branch);
    case None =>
      FailureDecidesText(LibraryOf(g), s, slot, Put, [id, json], branch);
  }

  /** A search answers from the index and from the branch that was asked (main, if none was named), and from nothing
      else; and it changes nothing. */
  lemma {:induction false} SearchReadsBranch(g: Engine, s: Store, other: Store, slot: Option<string>, op: Op,
                                             text: string, branch: Option<string>)
    requires op.Query? || (op.ExecuteSql? && g.selects(text))
    requires s.index == other.index
    requires SameDocuments(s, other, if branch.Some? then branch.value else "main")
    ensures Execute(LibraryOf(g), s, slot, Call(op, [text], branch)).2
         == Execute(LibraryOf(g), other, slot, Call(op, [text], branch)).2
    ensures Execute(LibraryOf(g), s, slot, Call(op, [text], branch)).0 == s
  {
    var name := BranchName(branch);
    forall id ensures id in DocsOf(s.docs, name) <==> id in DocsOf(other.docs, name) {
      assert SameDocument(s, other, name, id);
    }
    forall id | id in DocsOf(s.docs, name) ensures DocsOf(s.docs, name)[id] == DocsOf(other.docs, name)[id] {
      assert SameDocument(s, other, name, id);
    }
    assert DocsOf(s.docs, name) == DocsOf(other.docs, name);
  }

  lemma {:induction false} ReopeningKeepsDocs(g: Engine, s: Store, slot: Option<string>, move: Move, id: Id,
                                              branch: Option<string>)
    requires move.request == Call(Delete, [id], branch) && NulFree([id], branch)
    ensures PlayOne(LibraryOf(g), s, slot, move).2 == if Holds(s, branch, id) then Done else Failed(NotFound)
  {
    DeleteIsTold(g, Reindexed(s), None, id, branch);
    DeleteIsTold(g, s, slot, id, branch);
  }

  /** So in every run of either loop, wherever the database is suspended and reopened, each delete that is served is
      done exactly if the commands before it have left the document on its branch. */
  lemma {:induction false} DeletesInRuns(g: Engine, cfg: Config<Store>, st: State<Store>, now: nat, script: seq<Turn>,
                                         k: nat, id: Id, branch: Option<string>)
    requires cfg.lib == LibraryOf(g) && k < |Run(cfg, Start(st, now), script).moves|
    requires Run(cfg, Start(st, now), script).moves[k].request == Call(Delete, [id], branch) && NulFree([id], branch)
    ensures var w := Run(cfg, Start(st, now), script);
            var before := Play(cfg.lib, st.disk, st.slot, w.moves[..k]).disk;
            && k < |Sequential.Served(w.answers)|
            && Sequential.Served(w.answers)[k].request == Call(Delete, [id], branch)
            && Sequential.Served(w.answers)[k].body == if Holds(before, branch, id) then Done else Failed(NotFound)
  {
    var w := Run(cfg, Start(st, now), script);
    Sequential.RunIsPlayed(cfg, st, now, script);
    ReplyOfMove(cfg.lib, st.disk, st.slot, w.moves, k);
    var before := Play(cfg.lib, st.disk, st.slot, w.moves[..k]);
    ReopeningKeepsDocs(g, before.disk, before.slot, w.moves[k], id, branch);
  }

  // ---------- stores that reopening leaves alone ----------

  /** Each document of the default branch has exactly one index entry, with its present text. */
  predicate Tidy(s: Store) {
    IndexedOnce(s.index, DocsOf(s.docs, MAIN))
  }

  predicate IndexedOnce(index: Index, docs: map<Id, Text>) {
    forall id :: id in docs ==> id in index && index[id] == multiset{docs[id]}
  }

  lemma {:induction false} UnchangedIffTidy(s: Store)
    ensures Reindexed(s) == s <==> Tidy(s)
    ensures Tidy(Reindexed(s))
  {
    if Tidy(s) {
      assert Reindexed(s).index == s.index;
    }
  }

  /** What a caller can check before a command: saving documents to the default branch only under ids that the index has
      nothing under, and saving to another branch or deleting from it only what the default branch does not have. */
  predicate Careful(g: Engine, s: Store, op: Op, args: seq<string>, branch: Option<string>) {
    var main, name := DocsOf(s.docs, MAIN), BranchName(branch);
    if op.Put? && |args| == 2 then
      g.document(args[0], args[1]).None? ||
      if name == MAIN then Entries(s.index, args[0]) == multiset{} else args[0] !in main
    else if op.Delete? && |args| == 1 then
      args[0] in DocsOf(s.docs, name) && name != MAIN ==> args[0] !in main
    else if (op.Query? && |args| == 1) || Selects(g, op, args) then true
    else NothingNew(s, DocsOf(g.elsewhere(s.docs, op, args, branch).0, MAIN))
  }

  /** These documents are on the default branch already, or new there but indexed just so. */
  predicate NothingNew(s: Store, docs: map<Id, Text>) {
    forall id :: id in docs ==>
      if id in DocsOf(s.docs, MAIN) then docs[id] == DocsOf(s.docs, MAIN)[id]
      else id in s.index && s.index[id] == multiset{docs[id]}
  }

  lemma {:induction false} OneEntryIff(entries: multiset<Text>, text: Text, doc: Text)
    ensures entries + multiset{text} == multiset{doc} <==> entries == multiset{} && text == doc
  {
  }

  /** Only the saved id matters. */
  lemma {:induction false} TidyAtSaved(index: Index, docs: map<Id, Text>, id: Id, entries: multiset<Text>, doc: Text)
    requires forall i :: i in docs && i != id ==> i in index && index[i] == multiset{docs[i]}
    ensures IndexedOnce(index[id := entries], docs[id := doc]) <==> entries == multiset{doc}
  {
    assert docs[id := doc][id] == doc && index[id := entries][id] == entries;
  }

  lemma {:induction false} SaveOnMainIsTidyIff(s: Store, id: Id, text: Text)
    requires Tidy(s)
    ensures Tidy(Save(s, MAIN, id, text)) <==> Entries(s.index, id) == multiset{}
  {
    var entries := Entries(s.index, id);
    TidyAtSaved(s.index, DocsOf(s.docs, MAIN), id, entries + multiset{text}, text);
    OneEntryIff(entries, text, text);
    assert DocsOf(Save(s, MAIN, id, text).docs, MAIN) == DocsOf(s.docs, MAIN)[id := text];
  }

  lemma {:induction false} SaveElsewhereIsTidyIff(s: Store, branch: string, id: Id, text: Text)
    requires Tidy(s) && branch != MAIN
    ensures Tidy(Save(s, branch, id, text)) <==> id !in DocsOf(s.docs, MAIN)
  {
  }

  lemma {:induction false} RemoveIsTidyIff(s: Store, branch: string, id: Id)
    requires Tidy(s) && id in DocsOf(s.docs, branch)
    ensures Tidy(Remove(s, branch, id)) <==> (branch != MAIN ==> id !in DocsOf(s.docs, MAIN))
  {
  }

  lemma {:induction false} DocsAreTidyIff(s: Store, docs: Docs)
    requires Tidy(s)
    ensures Tidy(s.(docs := docs)) <==> NothingNew(s, DocsOf(docs, MAIN))
  {
  }

  /** A command keeps a store tidy exactly if it is careful. */
  lemma {:induction false} TidyIffCareful(g: Engine, s: Store, op: Op, args: seq<string>, branch: Option<string>)
    requires Tidy(s)
    ensures Tidy(RunOne(g, s, op, args, branch).0) <==> Careful(g, s, op, args, branch)
  {
    var name := BranchName(branch);
    if op.Put? && |args| == 2 {
      var document := g.document(args[0], args[1]);
      if document.Some? && name == MAIN {
        SaveOnMainIsTidyIff(s, args[0], document.value);
      } else if document.Some? {
        SaveElsewhereIsTidyIff(s, name, args[0], document.value);
      }
    } else if op.Delete? && |args| == 1 {
      if args[0] in DocsOf(s.docs, name) {
        RemoveIsTidyIff(s, name, args[0]);
      }
    } else if !(op.Query? && |args| == 1) && !Selects(g, op, args) {
      DocsAreTidyIff(s, g.elsewhere(s.docs, op, args, branch).0);
    }
  }

  // ---------- what searches can tell ----------

  /** Printing loses neither how often a document was found nor the rows of a selection. */
  ghost predicate Prints(g: Engine) {
    && (forall a, b, docs, id :: g.showHits(a, docs) == g.showHits(b, docs) && id in docs ==> a[id] == b[id])
    && (forall a, b :: g.showRows(a) == g.showRows(b) ==> a == b)
    && (forall a, docs :: g.parses(g.showHits(a, docs)))
    && (forall a :: g.parses(g.showRows(a)))
  }

  /** In this index the query finds the id as often as it has this entry. */
  predicate PicksIn(g: Engine, query: string, index: Index, id: Id, text: Text) {
    g.search(query, index)[id] == Entries(index, id)[text]
  }

  /** It does so before and after reopening. */
  predicate Picks(g: Engine, s: Store, query: string, id: Id, text: Text) {
    '\0' !in query && PicksIn(g, query, s.index, id, text) && PicksIn(g, query, Reindexed(s).index, id, text)
  }

  ghost predicate Findable(g: Engine, s: Store, id: Id, text: Text) {
    exists query :: Picks(g, s, query, id, text)
  }

  /** Every entry that the index has, or will have when reopened, can be searched for. */
  ghost predicate Precise(g: Engine, s: Store) {
    Prints(g) && forall id, text ::
      text in Entries(s.index, id) || text in Entries(Reindexed(s).index, id) ==> Findable(g, s, id, text)
  }

  /** A query to the default branch. */
  function Ask(query: string): Request {
    Call(Query, [query], None)
  }

  /** A selection from it. */
  function Select(statement: string): Request {
    Call(ExecuteSql, [statement], None)
  }

  lemma {:induction false} OneReply<D>(lib: Library<D>, disk: D, request: Request)
    ensures Replay(lib, disk, [request]).replies == [Execute(lib, disk, None, request).2]
  {
    ReplayAppend(lib, disk, [], request);
    assert [] + [request] == [request];
  }

  lemma {:induction false} QueryReplies(g: Engine, s: Store, query: string)
    requires '\0' !in query && Prints(g)
    ensures Execute(LibraryOf(g), s, None, Ask(query)).2
         == Value(g.showHits(g.search(query, s.index), DocsOf(s.docs, MAIN)))
  {
  }

  lemma {:induction false} SelectReplies(g: Engine, s: Store, statement: string)
    requires '\0' !in statement && g.selects(statement) && Prints(g)
    ensures Execute(LibraryOf(g), s, None, Select(statement)).2
         == Value(g.showRows(Rows(g.search(statement, s.index), DocsOf(s.docs, MAIN))))
  {
  }

  lemma {:induction false} OtherReplyTells(g: Engine, s: Store, request: Request)
    requires Execute(LibraryOf(g), s, None, request).2 != Execute(LibraryOf(g), Reindexed(s), None, request).2
    ensures !NotTold(LibraryOf(g), s, [request])
  {
    OneReply(LibraryOf(g), s, request);
    OneReply(LibraryOf(g), Reindexed(s), request);
  }

  /** A store that reopening changes is told from its reopened form by one query. */
  lemma {:induction false} UntidyIsTold(g: Engine, s: Store) returns (query: string)
    requires Precise(g, s) && !Tidy(s)
    ensures !NotTold(LibraryOf(g), s, [Ask(query)])
  {
    var main, after := DocsOf(s.docs, MAIN), Reindexed(s);
    var id, text := ChangedEntry(s);
    assert Findable(g, s, id, text);
    query :| Picks(g, s, query, id, text);
    QueryReplies(g, s, query);
    QueryReplies(g, after, query);
    assert g.search(query, s.index)[id] != g.search(query, after.index)[id];
    OtherReplyTells(g, s, Ask(query));
  }

  /** Reopening changes how often some document of the default branch is in the index with some text. */
  lemma {:induction false} ChangedEntry(s: Store) returns (id: Id, text: Text)
    requires !Tidy(s)
    ensures id in DocsOf(s.docs, MAIN) && Entries(s.index, id)[text] != Entries(Reindexed(s).index, id)[text]
  {
    var main := DocsOf(s.docs, MAIN);
    id :| id in main && !(id in s.index && s.index[id] == multiset{main[id]});
    var had, has := Entries(s.index, id), multiset{main[id]};
    assert had != has;
    text :| had[text] != has[text];
  }

  ghost predicate NeverTold(g: Engine, s: Store) {
    forall requests: seq<Request> :: NotTold(LibraryOf(g), s, requests)
  }

  /** So a store is tidy exactly if no requests tell it from its reopened form. */
  lemma {:induction false} TidyIffNeverTold(g: Engine, s: Store)
    requires Precise(g, s)
    ensures Tidy(s) <==> NeverTold(g, s)
  {
    if Tidy(s) {
      UnchangedIffTidy(s);
      forall requests: seq<Request> ensures NotTold(LibraryOf(g), s, requests) {
      }
    } else {
      var query := UntidyIsTold(g, s);
    }
  }

  // ---------- callers ----------

  predicate CarefulRequest(g: Engine, s: Store, request: Request) {
    request.Call? && ConversionError(Converted(request.args, request.branch)).None? ==>
      Careful(g, s, request.op, request.args, request.branch)
  }

  /** Each request is careful where it is executed, if nothing is ever reopened. */
  predicate CarefulRequests(g: Engine, s: Store, requests: seq<Request>) {
    requests == [] ||
    var front := requests[..|requests| - 1];
    CarefulRequests(g, s, front) && CarefulRequest(g, Replay(LibraryOf(g), s, front).disk, requests[|requests| - 1])
  }

  lemma {:induction false} CarefulRequestIff(g: Engine, s: Store, requests: seq<Request>, request: Request)
    requires Tidy(Replay(LibraryOf(g), s, requests).disk)
    ensures Tidy(Replay(LibraryOf(g), s, requests + [request]).disk)
       <==> CarefulRequest(g, Replay(LibraryOf(g), s, requests).disk, request)
  {
    ReplayAppend(LibraryOf(g), s, requests, request);
    if request.Call? {
      TidyIffCareful(g, Replay(LibraryOf(g), s, requests).disk, request.op, request.args, request.branch);
    }
  }

  /** From a tidy store, careful requests are exactly those that pass through tidy stores only. */
  lemma {:induction false} CarefulIffAllTidy(g: Engine, s: Store, requests: seq<Request>)
    requires Tidy(s)
    ensures CarefulRequests(g, s, requests) <==>
            forall n :: 0 <= n <= |requests| ==> Tidy(Replay(LibraryOf(g), s, requests[..n]).disk)
  {
    assert requests[..|requests|] == requests && Asks([]) == [];
    if requests != [] {
      var front, last := requests[..|requests| - 1], requests[|requests| - 1];
      CarefulIffAllTidy(g, s, front);
      assert front + [last] == requests;
      forall n | 0 <= n <= |front| ensures requests[..n] == front[..n] {
      }
      if Tidy(Replay(LibraryOf(g), s, front).disk) {
        CarefulRequestIff(g, s, front, last);
      }
      assert front[..|front|] == front;
    }
  }

  /** For the callers of one worker: if what they send is careful, suspension is invisible and leaves the same store,
      index included. */
  lemma {:induction false} CarefulCallersSeeNothing(g: Engine, cfg: Config<Store>, st: State<Store>, now: nat,
                                                    script: seq<Turn>)
    requires cfg.lib == LibraryOf(g) && !PathsHaveNul(cfg) && AllOpen(script) && st.slot.None? && Tidy(st.disk)
    requires CarefulRequests(g, st.disk, RequestsOf(Run(cfg, Start(st, now), script).moves))
    ensures SameAnswers(cfg, st, now, script)
    ensures Run(cfg, Start(st, now), script).state.disk == Run(NeverIdle(cfg), Start(st, now), script).state.disk
  {
    var moves := Run(cfg, Start(st, now), script).moves;
    NothingIsThrown(g);
    CarefulIffAllTidy(g, st.disk, RequestsOf(moves));
    forall k | 0 <= k < |moves|
      ensures cfg.lib.onOpen(StoreBefore(cfg.lib, st.disk, moves, k)) == StoreBefore(cfg.lib, st.disk, moves, k)
    {
      assert Unmarked(moves[..k]) == Asks(RequestsOf(moves)[..k]);
      UnchangedIffTidy(StoreBefore(cfg.lib, st.disk, moves, k));
    }
    UnmovedIsTransparent(cfg, st, now, script);
  }

  lemma {:induction false} FirstCareless(g: Engine, s: Store, requests: seq<Request>) returns (n: nat)
    requires Tidy(s) && !CarefulRequests(g, s, requests)
    ensures n <= |requests| && !Tidy(Replay(LibraryOf(g), s, requests[..n]).disk)
  {
    CarefulIffAllTidy(g, s, requests);
    n :| 0 <= n <= |requests| && !Tidy(Replay(LibraryOf(g), s, requests[..n]).disk);
  }

  ghost predicate PreciseAfter(g: Engine, s: Store, requests: seq<Request>, n: nat)
    requires n <= |requests|
  {
    Precise(g, Replay(LibraryOf(g), s, requests[..n]).disk)
  }

  /** And if it is not, and every entry can be searched for, then it shows: after some of the requests, silence and one
      search get another answer. */
  lemma {:induction false} CarelessCallersSeeIt(g: Engine, cfg: Config<Store>, st: State<Store>, now: nat,
                                                requests: seq<Request>)
    returns (n: nat, query: string, script: seq<Turn>)
    requires cfg.lib == LibraryOf(g) && cfg.idleTimeout.Some? && !PathsHaveNul(cfg) && st.slot.None?
    requires Tidy(st.disk) && !CarefulRequests(g, st.disk, requests)
    requires forall k: nat :: k <= |requests| ==> PreciseAfter(g, st.disk, requests, k)
    ensures n <= |requests| && AllOpen(script) && !SameAnswers(cfg, st, now, script)
    ensures RequestsOf(Run(cfg, Start(st, now), script).moves) == requests[..n] + [Ask(query)]
  {
    NothingIsThrown(g);
    n := FirstCareless(g, st.disk, requests);
    assert PreciseAfter(g, st.disk, requests, n);
    query := UntidyIsTold(g, Replay(LibraryOf(g), st.disk, requests[..n]).disk);
    script := ToldStoresShow(cfg, st, now, requests[..n], [Ask(query)]);
  }

  /** The statement finds the id while the index has it with the first text, and not when it has the second alone. */
  predicate FindsFirst(g: Engine, s: Store, statement: string, id: Id, first: Text, second: Text) {
    && '\0' !in statement && g.selects(statement)
    && (first in Entries(s.index, id) ==> id in g.search(statement, s.index))
    && (Entries(Reindexed(s).index, id) == multiset{second} ==> id !in g.search(statement, Reindexed(s).index))
  }

  /** Two JSON texts that make these documents. */
  predicate Makes(g: Engine, id: Id, one: string, first: Text, two: string, second: Text) {
    && '\0' !in id && '\0' !in one && '\0' !in two
    && g.document(id, one) == Some(first) && g.document(id, two) == Some(second)
  }

  function SavedTwice(s: Store, id: Id, first: Text, second: Text): Store {
    Save(Save(s, MAIN, id, first), MAIN, id, second)
  }

  /** The smallest case, from any store: save a document twice and select by what only the first text matched.  Without
      suspension the row is there; after a silence it is not. */
  lemma {:induction false} SavingTwiceShows(g: Engine, cfg: Config<Store>, st: State<Store>, now: nat, id: Id,
                                            one: string, first: Text, two: string, second: Text, statement: string)
    returns (script: seq<Turn>)
    requires cfg.lib == LibraryOf(g) && cfg.idleTimeout.Some? && !PathsHaveNul(cfg) && st.slot.None?
    requires Prints(g) && Makes(g, id, one, first, two, second)
    requires FindsFirst(g, SavedTwice(st.disk, id, first, second), statement, id, first, second)
    ensures AllOpen(script) && !SameAnswers(cfg, st, now, script)
    ensures RequestsOf(Run(cfg, Start(st, now), script).moves)
         == [Call(Put, [id, one], None), Call(Put, [id, two], None), Select(statement)]
  {
    SavingTwiceTells(g, st.disk, id, one, first, two, second, statement);
    var put1, put2 := Call(Put, [id, one], None), Call(Put, [id, two], None);
    script := TwoThenOneShows(g, cfg, st, now, put1, put2, Select(statement));
  }

  lemma {:induction false} TwoThenOneShows(g: Engine, cfg: Config<Store>, st: State<Store>, now: nat, one: Request,
                                           two: Request, telling: Request)
    returns (script: seq<Turn>)
    requires cfg.lib == LibraryOf(g) && cfg.idleTimeout.Some? && !PathsHaveNul(cfg) && st.slot.None?
    requires !NotTold(LibraryOf(g), Replay(LibraryOf(g), st.disk, [one, two]).disk, [telling])
    ensures AllOpen(script) && !SameAnswers(cfg, st, now, script)
    ensures RequestsOf(Run(cfg, Start(st, now), script).moves) == [one, two, telling]
  {
    NothingIsThrown(g);
    assert [one, two] + [telling] == [one, two, telling];
    script := ToldStoresShow(cfg, st, now, [one, two], [telling]);
  }

  lemma {:induction false} SavingTwiceTells(g: Engine, s: Store, id: Id, one: string, first: Text, two: string,
                                            second: Text, statement: string)
    requires Prints(g) && Makes(g, id, one, first, two, second)
    requires FindsFirst(g, SavedTwice(s, id, first, second), statement, id, first, second)
    ensures var puts := [Call(Put, [id, one], None), Call(Put, [id, two], None)];
            !NotTold(LibraryOf(g), Replay(LibraryOf(g), s, puts).disk, [Select(statement)])
  {
    TwoSaves(g, s, id, one, first, two, second);
    StaleEntryTells(g, SavedTwice(s, id, first, second), id, first, second, statement);
  }

  lemma {:induction false} StaleEntryTells(g: Engine, s: Store, id: Id, first: Text, second: Text, statement: string)
    requires Prints(g) && FindsFirst(g, s, statement, id, first, second)
    requires first in Entries(s.index, id) && id in DocsOf(s.docs, MAIN) && DocsOf(s.docs, MAIN)[id] == second
    ensures !NotTold(LibraryOf(g), s, [Select(statement)])
  {
    var main, after := DocsOf(s.docs, MAIN), Reindexed(s);
    SelectReplies(g, s, statement);
    SelectReplies(g, after, statement);
    assert Entries(after.index, id) == multiset{second};
    assert id in Rows(g.search(statement, s.index), main) && id !in Rows(g.search(statement, after.index), main);
    OtherReplyTells(g, s, Select(statement));
  }

  lemma {:induction false} TwoSaves(g: Engine, s: Store, id: Id, one: string, first: Text, two: string, second: Text)
    requires Makes(g, id, one, first, two, second)
    ensures var puts := [Call(Put, [id, one], None), Call(Put, [id, two], None)];
            Replay(LibraryOf(g), s, puts).disk == SavedTwice(s, id, first, second)
    ensures var after := SavedTwice(s, id, first, second);
            && first in Entries(after.index, id)
            && id in DocsOf(after.docs, MAIN) && DocsOf(after.docs, MAIN)[id] == second
  {
    var put1, put2 := Call(Put, [id, one], None), Call(Put, [id, two], None);
    ReplayAppend(LibraryOf(g), s, [], put1);
    ReplayAppend(LibraryOf(g), s, [put1], put2);
    OneSave(g, s, None, id, one, first);
    OneSave(g, Save(s, MAIN, id, first), None, id, two, second);
    assert [] + [put1] == [put1] && [put1] + [put2] == [put1, put2];
  }

  lemma {:induction false} OneSave(g: Engine, s: Store, slot: Option<string>, id: Id, json: string, text: Text)
    requires '\0' !in id && '\0' !in json && g.document(id, json) == Some(text)
    ensures var (after, slot', _) := Execute(LibraryOf(g), s, slot, Call(Put, [id, json], None));
            after == Save(s, MAIN, id, text) && slot' == slot
  {
    assert Converted([id, json], None) == [id, json];
  }
}
