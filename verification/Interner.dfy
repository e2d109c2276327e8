/** Interned texts with a cache per thread, as a machine whose steps interleave freely. A locked
    section is one step; what a thread does before it takes the lock is another. */
module Interner {
  import opened Wrappers

  const UINT32_MAX := 0xFFFF_FFFF

  const CACHE_SIZE := 64

  /** The shared table. Texts are only appended; their position is their id. */
  datatype Table = Table(texts: seq<string>, ids: map<string, nat>)

  /** A thread's cache: ids, and pointers into the table as positions. `pending` is the id of a lookup
      that missed and waits for the lock. */
  datatype Thread = Thread(cachedIds: seq<nat>, cachedTexts: seq<Option<nat>>, pending: Option<nat>)

  datatype System = System(table: Table, threads: map<nat, Thread>)

  datatype Event = Intern(thread: nat, text: string) | BeginLookup(thread: nat, id: nat) | EndLookup(thread: nat)

  /** `Dangling` is a pointer past the table. */
  datatype Answer = Issued(id: nat) | TooMany | Found(sought: nat, text: string) | Waiting | Nothing | Dangling

  datatype Taken<T> = Taken(next: T, answer: Answer)

  function EmptyTable(): Table {
    Table([""], map[])
  }

  function EmptyThread(): Thread {
    Thread(seq(CACHE_SIZE, i => 0), seq(CACHE_SIZE, i => None), None)
  }

  function ThreadOf(s: System, t: nat): Thread {
    if t in s.threads then s.threads[t] else EmptyThread()
  }

  function InternStep(table: Table, text: string): Taken<Table> {
    if text == "" then Taken(table, Issued(0))
    else if text in table.ids then Taken(table, Issued(table.ids[text]))
    else if |table.texts| >= UINT32_MAX then Taken(table, TooMany)
    else Taken(Table(table.texts + [text], table.ids[text := |table.texts|]), Issued(|table.texts|))
  }

  predicate ThreadShape(t: Thread) {
    |t.cachedIds| == CACHE_SIZE && |t.cachedTexts| == CACHE_SIZE
  }

  /** Without the lock: the empty text, a cached text, or a miss. */
  function BeginStep(table: Table, t: Thread, id: nat): Taken<Thread>
    requires ThreadShape(t)
  {
    var slot := id % CACHE_SIZE;
    if id == 0 then Taken(t, Found(0, ""))
    else if id == t.cachedIds[slot] && t.cachedTexts[slot].Some? then
      var entry := t.cachedTexts[slot].value;
      Taken(t, if entry < |table.texts| then Found(id, table.texts[entry]) else Dangling)
    else Taken(t.(pending := Some(id)), Waiting)
  }

  /** With the lock: a text of the table, which is then cached. */
  function EndStep(table: Table, t: Thread): Taken<Thread>
    requires ThreadShape(t) && t.pending.Some?
  {
    var id := t.pending.value;
    var slot := id % CACHE_SIZE;
    if id >= |table.texts| then Taken(t.(pending := None), Found(id, ""))
    else Taken(Thread(t.cachedIds[slot := id], t.cachedTexts[slot := Some(id)], None), Found(id, table.texts[id]))
  }

  predicate SystemShape(s: System) {
    forall t :: t in s.threads ==> ThreadShape(s.threads[t])
  }

  /** A step of a thread. A thread that waits for the lock does nothing else. */
  function Step(s: System, e: Event): (r: Taken<System>)
    requires SystemShape(s)
    ensures SystemShape(r.next)
  {
    var t := ThreadOf(s, e.thread);
    match e
    case Intern(_, text) =>
      if t.pending.Some? then Taken(s, Nothing)
      else
        var r := InternStep(s.table, text);
        Taken(s.(table := r.next), r.answer)
    case BeginLookup(thread, id) =>
      if t.pending.Some? then Taken(s, Nothing)
      else
        var r := BeginStep(s.table, t, id);
        Taken(s.(threads := s.threads[thread := r.next]), r.answer)
    case EndLookup(thread) =>
      if t.pending.None? then Taken(s, Nothing)
      else
        var r := EndStep(s.table, t);
        Taken(s.(threads := s.threads[thread := r.next]), r.answer)
  }

  /** The system after a run. */
  function After(run: seq<Event>): (s: System)
    ensures SystemShape(s)
    decreases |run|
  {
    if run == [] then System(EmptyTable(), map[])
    else Step(After(run[..|run| - 1]), run[|run| - 1]).next
  }

  function AnswerAt(run: seq<Event>, i: nat): Answer
    requires i < |run|
  {
    Step(After(run[..i]), run[i]).answer
  }

  /** The text an id stands for in a table; ids that were never issued stand for the empty text. */
  function Meaning(table: Table, id: nat): string {
    if id < |table.texts| then table.texts[id] else ""
  }

  predicate TableValid(table: Table) {
    && table.texts != [] && table.texts[0] == ""
    && (forall text :: text in table.ids ==>
          0 < table.ids[text] < |table.texts| && table.texts[table.ids[text]] == text && text != "")
    && (forall i :: 0 < i < |table.texts| ==> table.texts[i] in table.ids && table.ids[table.texts[i]] == i)
  }

  /** A cached pointer points at the text of the cached id. */
  predicate CacheValid(table: Table, t: Thread) {
    && ThreadShape(t)
    && forall slot :: 0 <= slot < CACHE_SIZE && t.cachedTexts[slot].Some? ==>
         t.cachedTexts[slot].value == t.cachedIds[slot] < |table.texts|
  }

  predicate Valid(s: System) {
    TableValid(s.table) && forall t :: t in s.threads ==> CacheValid(s.table, s.threads[t])
  }

  /** Interning keeps every id, and issues the id of the text. */
  lemma InternKeeps(table: Table, text: string)
    requires TableValid(table)
    ensures var r := InternStep(table, text);
      && TableValid(r.next) && table.texts <= r.next.texts
      && (r.answer.Issued? ==> r.answer.id < |r.next.texts| && r.next.texts[r.answer.id] == text)
      && (r.answer == TooMany <==> text != "" && text !in table.texts && |table.texts| >= UINT32_MAX)
  {
    if text in table.ids {
      assert table.texts[table.ids[text]] in table.texts;
    }
  }

  lemma LookupsKeep(table: Table, t: Thread, id: nat)
    requires TableValid(table) && CacheValid(table, t)
    ensures var r := BeginStep(table, t, id);
      && CacheValid(table, r.next)
      && (r.answer == Found(id, Meaning(table, id)) || r.answer == Waiting)
      && (r.answer == Waiting ==> EndStep(table, r.next).answer == Found(id, Meaning(table, id)))
    ensures t.pending.Some? ==> var r := EndStep(table, t);
      CacheValid(table, r.next) && r.answer == Found(t.pending.value, Meaning(table, t.pending.value))
  {
  }

  /** A text that was looked up with the lock is found without it the next time, also when other threads have
      interned more texts in between. */
  lemma SecondLookupHits(table: Table, longer: Table, t: Thread)
    requires TableValid(table) && CacheValid(table, t) && table.texts <= longer.texts
    requires t.pending.Some? && t.pending.value < |table.texts|
    ensures var id := t.pending.value;
      BeginStep(longer, EndStep(table, t).next, id).answer == Found(id, table.texts[id])
  {
  }

  /** A longer table keeps caches valid. */
  lemma CacheSurvives(table: Table, longer: Table, t: Thread)
    requires CacheValid(table, t) && |table.texts| <= |longer.texts|
    ensures CacheValid(longer, t)
  {
  }

  lemma StepKeeps(s: System, e: Event)
    requires Valid(s)
    ensures Valid(Step(s, e).next) && s.table.texts <= Step(s, e).next.table.texts
    ensures var answer := Step(s, e).answer;
      && answer != Dangling
      && (answer.Found? ==> answer.text == Meaning(s.table, answer.sought) && Step(s, e).next.table == s.table)
      && (answer.Issued? ==>
            var texts := Step(s, e).next.table.texts;
            e.Intern? && answer.id < |texts| && texts[answer.id] == e.text)
  {
    var t := ThreadOf(s, e.thread);
    assert CacheValid(s.table, t);
    if e.Intern? {
      InternKeeps(s.table, e.text);
      var next := Step(s, e).next;
      forall u | u in next.threads ensures CacheValid(next.table, next.threads[u]) {
        CacheSurvives(s.table, next.table, s.threads[u]);
      }
    } else if e.BeginLookup? || t.pending.Some? {
      LookupsKeep(s.table, t, if e.BeginLookup? then e.id else 0);
    }
  }

  lemma {:induction false} RunIsValid(run: seq<Event>)
    ensures Valid(After(run))
    decreases |run|
  {
    if run != [] {
      RunIsValid(run[..|run| - 1]);
      StepKeeps(After(run[..|run| - 1]), run[|run| - 1]);
    }
  }

  lemma AfterStep(run: seq<Event>, i: nat)
    requires i < |run|
    ensures After(run[..i + 1]) == Step(After(run[..i]), run[i]).next
  {
    assert run[..i + 1][..i] == run[..i] && run[..i + 1][i] == run[i];
  }

  /** The table of a run only grows. */
  lemma TableGrows(run: seq<Event>, i: nat, j: nat)
    requires i <= j <= |run|
    ensures After(run[..i]).table.texts <= After(run[..j]).table.texts
  {
    var tables := seq(|run| + 1, k requires 0 <= k <= |run| => After(run[..k]).table.texts);
    forall k | 0 <= k < |run| ensures tables[k] <= tables[k + 1] {
      StepGrows(run, k);
    }
    EachIsPrefix(tables, i, j);
  }

  lemma {:induction false} EachIsPrefix(tables: seq<seq<string>>, i: nat, j: nat)
    requires i <= j < |tables| && forall k :: 0 <= k < |tables| - 1 ==> tables[k] <= tables[k + 1]
    ensures tables[i] <= tables[j]
    decreases j - i
  {
    if i < j {
      EachIsPrefix(tables, i, j - 1);
    }
  }

  lemma StepGrows(run: seq<Event>, i: nat)
    requires i < |run|
    ensures After(run[..i]).table.texts <= After(run[..i + 1]).table.texts
  {
    RunIsValid(run[..i]);
    StepKeeps(After(run[..i]), run[i]);
    AfterStep(run, i);
  }

  /** What the table holds from the moment an id is issued. */
  lemma IssuedStays(run: seq<Event>, i: nat, j: nat)
    requires i < j <= |run| && AnswerAt(run, i).Issued?
    ensures run[i].Intern? && var id, texts := AnswerAt(run, i).id, After(run[..j]).table.texts;
      id < |texts| && texts[id] == run[i].text
  {
    RunIsValid(run[..i]);
    StepKeeps(After(run[..i]), run[i]);
    AfterStep(run, i);
    TableGrows(run, i + 1, j);
  }

  /** Ids are equal exactly when texts are, whenever and by whichever thread they were issued. */
  lemma IdsAreTexts(run: seq<Event>, i: nat, j: nat)
    requires i < |run| && j < |run| && AnswerAt(run, i).Issued? && AnswerAt(run, j).Issued?
    ensures run[i].Intern? && run[j].Intern?
    ensures AnswerAt(run, i).id == AnswerAt(run, j).id <==> run[i].text == run[j].text
  {
    IssuedStays(run, i, |run|);
    IssuedStays(run, j, |run|);
    RunIsValid(run);
    assert run[..|run|] == run;
    var table := After(run).table;
    var x, y := AnswerAt(run, i).id, AnswerAt(run, j).id;
    assert table.texts[x] == run[i].text && table.texts[y] == run[j].text;
    assert x != 0 && y != 0 ==> table.ids[table.texts[x]] == x && table.ids[table.texts[y]] == y;
    assert x == 0 ==> table.texts[x] == "";
    assert y == 0 ==> table.texts[y] == "";
  }

  /** An id in the table was issued by some step before. */
  lemma {:induction false} TableWasIssued(run: seq<Event>, id: nat)
    requires 0 < id < |After(run).table.texts|
    ensures exists i :: 0 <= i < |run| && AnswerAt(run, i) == Issued(id)
    decreases |run|
  {
    var n := |run| - 1;
    if id < |After(run[..n]).table.texts| {
      TableWasIssued(run[..n], id);
      var i :| 0 <= i < n && AnswerAt(run[..n], i) == Issued(id);
      assert run[..n][..i] == run[..i];
      assert AnswerAt(run, i) == Issued(id);
    } else {
      assert AnswerAt(run, n) == Issued(id);
    }
  }

  /** A lookup, from the cache or from the table, answers with the text the id was issued for, and
      with the empty text when it was not issued by then. */
  lemma LookupsAnswer(run: seq<Event>, j: nat)
    requires j < |run| && AnswerAt(run, j).Found?
    ensures forall i :: 0 <= i < j && AnswerAt(run, i) == Issued(AnswerAt(run, j).sought) ==>
      run[i].Intern? && AnswerAt(run, j).text == run[i].text
    ensures (forall i :: 0 <= i < j ==> AnswerAt(run, i) != Issued(AnswerAt(run, j).sought))
      ==> AnswerAt(run, j).text == ""
  {
    var id := AnswerAt(run, j).sought;
    RunIsValid(run[..j]);
    StepKeeps(After(run[..j]), run[j]);
    forall i | 0 <= i < j && AnswerAt(run, i) == Issued(id)
      ensures run[i].Intern? && AnswerAt(run, j).text == run[i].text
    {
      IssuedStays(run, i, j);
    }
    if 0 < id < |After(run[..j]).table.texts| {
      var i := IssuedBefore(run, j, id);
      assert AnswerAt(run, i) == Issued(id);
    }
  }

  lemma IssuedBefore(run: seq<Event>, j: nat, id: nat) returns (i: nat)
    requires j <= |run| && 0 < id < |After(run[..j]).table.texts|
    ensures i < j && AnswerAt(run, i) == Issued(id)
  {
    TableWasIssued(run[..j], id);
    i :| 0 <= i < j && AnswerAt(run[..j], i) == Issued(id);
    assert run[..j][..i] == run[..i];
  }

  /** No cached pointer ever dangles, and a lookup is answered: at once or when it gets the lock. */
  lemma LookupsFinish(run: seq<Event>, e: Event)
    ensures Step(After(run), e).answer != Dangling
    ensures e.BeginLookup? && ThreadOf(After(run), e.thread).pending.None? ==>
      var r := Step(After(run), e);
      var found := Found(e.id, Meaning(After(run).table, e.id));
      r.answer.Found? || (r.answer == Waiting && Step(r.next, EndLookup(e.thread)).answer == found)
  {
    RunIsValid(run);
    StepKeeps(After(run), e);
    if e.BeginLookup? {
      LookupsKeep(After(run).table, ThreadOf(After(run), e.thread), e.id);
    }
  }

  class SourceTextInterner {
    var texts: seq<string>
    var ids: map<string, nat>

    constructor ()
      ensures Contents() == EmptyTable() && TableValid(Contents())
    {
      texts := [""];
      ids := map[];
    }

    function Contents(): Table
      reads this
    {
      Table(texts, ids)
    }

    /** `intern_source_text`; the table is full at 2^32 - 1 entries. */
    method InternSourceText(text: string) returns (id: Result<nat>)
      requires TableValid(Contents())
      modifies this
      ensures TableValid(Contents()) && old(texts) <= texts
      ensures id.Success? ==> id.value < |texts| && texts[id.value] == text
      ensures id.Failure? <==> text != "" && text !in old(texts) && |old(texts)| >= UINT32_MAX
      ensures var r := InternStep(old(Contents()), text);
        Contents() == r.next && r.answer == if id.Success? then Issued(id.value) else TooMany
    {
      InternKeeps(Contents(), text);
      if text == "" {
        return Success(0);
      }
      if text in ids {
        return Success(ids[text]);
      }
      if |texts| >= UINT32_MAX {
        return Failure("too many source text atoms interned");
      }
      var next := |texts|;
      texts := texts + [text];
      ids := ids[text := next];
      return Success(next);
    }
  }

  /** The arrays a thread keeps between its lookups. */
  class ThreadCache {
    const cachedIds: array<nat>
    const cachedTexts: array<Option<nat>>

    constructor ()
      ensures fresh(cachedIds) && fresh(cachedTexts)
      ensures cachedIds.Length == CACHE_SIZE && cachedTexts.Length == CACHE_SIZE
      ensures Contents() == EmptyThread()
    {
      cachedIds := new nat[CACHE_SIZE](i => 0);
      cachedTexts := new Option<nat>[CACHE_SIZE](i => None);
      new;
      assert cachedIds[..] == EmptyThread().cachedIds;
      assert cachedTexts[..] == EmptyThread().cachedTexts;
    }

    function Contents(): Thread
      reads this, cachedIds, cachedTexts
    {
      Thread(cachedIds[..], cachedTexts[..], None)
    }

    /** `source_text_from_id`, with nothing between its steps. */
    method SourceTextFromId(interner: SourceTextInterner, id: nat) returns (text: string)
      requires TableValid(interner.Contents()) && CacheValid(interner.Contents(), Contents())
      modifies cachedIds, cachedTexts
      ensures CacheValid(interner.Contents(), Contents())
      ensures text == Meaning(interner.Contents(), id)
      ensures var begun := BeginStep(interner.Contents(), old(Contents()), id);
        if begun.answer == Waiting then EndStep(interner.Contents(), begun.next) == Taken(Contents(), Found(id, text))
        else begun == Taken(Contents(), Found(id, text))
    {
      ghost var was := Contents();
      if id == 0 {
        return "";
      }
      var slot := id % CACHE_SIZE;
      if id == cachedIds[slot] && cachedTexts[slot].Some? {
        return interner.texts[cachedTexts[slot].value];
      }
      LookupsKeep(interner.Contents(), was, id);
      if id >= |interner.texts| {
        return "";
      }
      cachedIds[slot] := id;
      cachedTexts[slot] := Some(id);
      text := interner.texts[id];
      LookupsKeep(interner.Contents(), was.(pending := Some(id)), id);
      assert Contents() == EndStep(interner.Contents(), was.(pending := Some(id))).next;
    }
  }
}
