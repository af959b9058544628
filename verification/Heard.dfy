/** Who has spoken to a player recently: at most 256 names, oldest forgotten first. */
module Heard {
  import opened Words
  import opened Times
  import opened Wrappers

  const HEARD_CAP: nat := 256

  /** The last session under a name, when it last spoke, and how often. */
  datatype Entry = Entry(session: u32, last: Time, secs: u32)

  type Book = map<string, Entry>

  /** Forgets entries older than the retention time. */
  function Purge(book: Book, now: Time, retention: nat): Book {
    map k | k in book && Since(book[k].last, now) <= retention :: book[k]
  }

  predicate IsOldest(book: Book, name: string) {
    name in book && forall k :: k in book ==> book[name].last <= book[k].last
  }

  /** The book before a new name is entered: purged and, if still full, without one of the oldest. */
  function MakeRoom(book: Book, name: string, now: Time, retention: nat, oldest: string): Book {
    if |book| < HEARD_CAP || name in book then book
    else
      var purged := Purge(book, now, retention);
      if |purged| < HEARD_CAP then purged else purged - {oldest}
  }

  function Touch(book: Book, name: string, session: u32, now: Time): Book {
    var secs := if name in book then book[name].secs else 0;
    book[name := Entry(session, now, (secs + 1) % 0x1_0000_0000)]
  }

  /** The book after hearing `name`; `oldest` is the entry evicted if there is no other way to make room. */
  function Note(book: Book, name: string, session: u32, now: Time, retention: nat, oldest: string): Book {
    Touch(MakeRoom(book, name, now, retention, oldest), name, session, now)
  }

  /** `oldest` is a legitimate choice of what to evict. */
  predicate MayEvict(book: Book, name: string, now: Time, retention: nat, oldest: string) {
    var purged := Purge(book, now, retention);
    |book| >= HEARD_CAP && name !in book && |purged| >= HEARD_CAP ==> IsOldest(purged, oldest)
  }

  /** The first minimum in some order of iteration. */
  method FindOldest(book: Book) returns (name: string)
    requires |book| > 0
    ensures IsOldest(book, name)
  {
    assert book.Keys != {};
    name :| name in book.Keys;
    var todo := book.Keys - {name};
    while todo != {}
      invariant name in book && name !in todo && todo <= book.Keys
      invariant forall k :: k in book && k !in todo ==> book[name].last <= book[k].last
      decreases todo
    {
      var k :| k in todo;
      todo := todo - {k};
      if book[k].last < book[name].last {
        name := k;
      }
    }
  }

  // ----- The book against the full log -----

  datatype Event =
    | Spoke(name: string, session: u32, now: Time, retention: nat, oldest: string)
    | Expired(now: Time, retention: nat)
    | Cleared(now: Time)

  function Apply(book: Book, e: Event): Book {
    match e
    case Spoke(name, session, now, retention, oldest) => Note(book, name, session, now, retention, oldest)
    case Expired(now, retention) => Purge(book, now, retention)
    case Cleared(_) => map[]
  }

  /** The book after a sequence of events, from empty. */
  function Kept(events: seq<Event>): Book {
    if events == [] then map[] else Apply(Kept(events[..|events| - 1]), events[|events| - 1])
  }

  function Clock(events: seq<Event>): Time {
    if events == [] then 0 else events[|events| - 1].now
  }

  /** The clock does not run backwards, and what is evicted is one of the oldest. */
  predicate Proper(events: seq<Event>) {
    events == [] ||
    (var front, e := events[..|events| - 1], events[|events| - 1];
     && Proper(front)
     && Clock(front) <= e.now
     && (e.Spoke? ==> MayEvict(Kept(front), e.name, e.now, e.retention, e.oldest)))
  }

  /** When and from which session a name was last heard, looking at the whole log. */
  function LastHeard(events: seq<Event>, name: string): Option<(Time, u32)> {
    if events == [] then None
    else
      var e := events[|events| - 1];
      if e.Spoke? && e.name == name then Some((e.now, e.session)) else LastHeard(events[..|events| - 1], name)
  }

  /** Every entry is the last hearing of its name, and nobody forgotten was heard later than somebody kept. */
  ghost predicate MostRecent(book: Book, events: seq<Event>) {
    && (forall n :: n in book ==> LastHeard(events, n) == Some((book[n].last, book[n].session)))
    && (forall n, m :: n in book && m !in book && LastHeard(events, m).Some? ==>
          LastHeard(events, m).value.0 <= book[n].last)
  }

  lemma {:induction false} HeardInThePast(events: seq<Event>, name: string)
    requires Proper(events) && LastHeard(events, name).Some?
    ensures LastHeard(events, name).value.0 <= Clock(events)
  {
    hide MayEvict, Kept;
    var e := events[|events| - 1];
    if !(e.Spoke? && e.name == name) {
      HeardInThePast(events[..|events| - 1], name);
    }
  }

  lemma {:induction false} PurgeKeeps(book: Book, events: seq<Event>, now: Time, retention: nat)
    requires MostRecent(book, events) && Proper(events) && Clock(events) <= now
    ensures MostRecent(Purge(book, now, retention), events)
  {
    hide LastHeard, Proper;
    forall n | n in book
      ensures book[n].last <= now
    {
      HeardInThePast(events, n);
    }
  }

  lemma {:induction false} EvictKeeps(book: Book, events: seq<Event>, oldest: string)
    requires MostRecent(book, events) && IsOldest(book, oldest)
    ensures MostRecent(book - {oldest}, events)
  {
    hide LastHeard;
  }

  lemma {:induction false} LastHeardNow(events: seq<Event>, e: Event, name: string)
    ensures LastHeard(events + [e], name) ==
            if e.Spoke? && e.name == name then Some((e.now, e.session)) else LastHeard(events, name)
  {
    assert (events + [e])[..|events|] == events;
  }

  lemma {:induction false} TouchKeeps(book: Book, events: seq<Event>, e: Event)
    requires e.Spoke? && MostRecent(book, events) && Proper(events) && Clock(events) <= e.now
    ensures MostRecent(Touch(book, e.name, e.session, e.now), events + [e])
  {
    hide Proper, LastHeard;
    forall m
      ensures LastHeard(events + [e], m) ==
              if m == e.name then Some((e.now, e.session)) else LastHeard(events, m)
      ensures LastHeard(events, m).Some? ==> LastHeard(events, m).value.0 <= e.now
    {
      LastHeardNow(events, e, m);
      if LastHeard(events, m).Some? {
        HeardInThePast(events, m);
      }
    }
  }

  lemma {:induction false} PurgeSize(book: Book, now: Time, retention: nat)
    ensures |Purge(book, now, retention)| <= |book|
  {
    var p := Purge(book, now, retention);
    assert p.Keys <= book.Keys;
    assert book.Keys == p.Keys + (book.Keys - p.Keys);
    assert |p| == |p.Keys| && |book| == |book.Keys|;
  }

  lemma {:induction false} NoteSize(book: Book, e: Event)
    requires e.Spoke? && |book| <= HEARD_CAP && MayEvict(book, e.name, e.now, e.retention, e.oldest)
    ensures |Note(book, e.name, e.session, e.now, e.retention, e.oldest)| <= HEARD_CAP
  {
    hide Purge, Touch;
    var purged := Purge(book, e.now, e.retention);
    PurgeSize(book, e.now, e.retention);
    if IsOldest(purged, e.oldest) {
      EvictSize(purged, e.oldest);
    }
    TouchSize(MakeRoom(book, e.name, e.now, e.retention, e.oldest), e.name, e.session, e.now);
  }

  lemma {:induction false} EvictSize(book: Book, name: string)
    requires name in book
    ensures |book - {name}| == |book| - 1
  {
    var rest := book - {name};
    assert rest.Keys == book.Keys - {name};
    assert |rest| == |rest.Keys| && |book| == |book.Keys|;
  }

  lemma {:induction false} TouchSize(book: Book, name: string, session: u32, now: Time)
    ensures |Touch(book, name, session, now)| == |book| + if name in book then 0 else 1
  {
    var touched := Touch(book, name, session, now);
    assert touched.Keys == book.Keys + {name};
    assert |touched| == |touched.Keys| && |book| == |book.Keys|;
  }

  lemma {:induction false} NoteKeeps(book: Book, events: seq<Event>, e: Event)
    requires e.Spoke? && MostRecent(book, events) && Proper(events) && Clock(events) <= e.now
    requires MayEvict(book, e.name, e.now, e.retention, e.oldest)
    ensures MostRecent(Note(book, e.name, e.session, e.now, e.retention, e.oldest), events + [e])
  {
    hide MostRecent, Proper, Touch, Purge, IsOldest;
    PurgeKeeps(book, events, e.now, e.retention);
    var purged := Purge(book, e.now, e.retention);
    if |book| >= HEARD_CAP && e.name !in book && |purged| >= HEARD_CAP {
      EvictKeeps(purged, events, e.oldest);
    }
    TouchKeeps(MakeRoom(book, e.name, e.now, e.retention, e.oldest), events, e);
  }

  lemma {:induction false} QuietKeeps(book: Book, events: seq<Event>, e: Event)
    requires !e.Spoke? && MostRecent(book, events)
    ensures MostRecent(book, events + [e])
  {
    hide LastHeard;
    forall m
      ensures LastHeard(events + [e], m) == LastHeard(events, m)
    {
      LastHeardNow(events, e, m);
    }
  }

  /**
   * After any proper sequence of hearings, expiries, evictions and clearings the book holds at most
   * 256 names, and they are the most recently heard ones, each with its last session and time.
   */
  lemma {:induction false} BookHoldsMostRecent(events: seq<Event>)
    requires Proper(events)
    ensures |Kept(events)| <= 256 && MostRecent(Kept(events), events)
  {
    if events != [] {
      hide MostRecent, MayEvict, Note, Purge;
      var front, e := events[..|events| - 1], events[|events| - 1];
      BookHoldsMostRecent(front);
      assert front + [e] == events;
      match e
      case Spoke(_, _, _, _, _) =>
        NoteSize(Kept(front), e);
        NoteKeeps(Kept(front), front, e);
      case Expired(now, retention) =>
        PurgeSize(Kept(front), now, retention);
        PurgeKeeps(Kept(front), front, now, retention);
        QuietKeeps(Purge(Kept(front), now, retention), front, e);
      case Cleared(_) =>
        NothingIsRecent(events);
    }
  }

  lemma {:induction false} NothingIsRecent(events: seq<Event>)
    ensures MostRecent(map[], events)
  {
  }

  // ----- Nobody is forgotten without a reason -----

  /** When a name was last heard, if the book was not cleared since. */
  function Standing(events: seq<Event>, name: string): Option<Time> {
    if events == [] then None
    else
      var e := events[|events| - 1];
      if e.Cleared? then None
      else if e.Spoke? && e.name == name then Some(e.now)
      else Standing(events[..|events| - 1], name)
  }

  /** Since the name was last heard, some event found it older than the retention time then in force. */
  predicate Outlived(events: seq<Event>, name: string) {
    events != [] &&
    (var front, e := events[..|events| - 1], events[|events| - 1];
     && !e.Cleared?
     && !(e.Spoke? && e.name == name)
     && (Outlived(front, name) ||
         (Standing(front, name).Some? && Since(Standing(front, name).value, e.now) > e.retention)))
  }

  ghost function Names(events: seq<Event>): set<string> {
    set i | 0 <= i < |events| && events[i].Spoke? :: events[i].name
  }

  /** The other names last heard at time `t` or later. */
  ghost function HeardAfter(events: seq<Event>, name: string, t: Time): set<string> {
    set n | n in Names(events) && n != name && LastHeard(events, n).Some? && LastHeard(events, n).value.0 >= t
  }

  lemma {:induction false} StandingIsLast(events: seq<Event>, name: string)
    requires Standing(events, name).Some?
    ensures LastHeard(events, name).Some? && LastHeard(events, name).value.0 == Standing(events, name).value
  {
    var e := events[|events| - 1];
    if !(e.Spoke? && e.name == name) {
      StandingIsLast(events[..|events| - 1], name);
    }
  }

  lemma {:induction false} HeardIsNamed(events: seq<Event>, name: string)
    requires LastHeard(events, name).Some?
    ensures name in Names(events)
  {
    var last := |events| - 1;
    if !(events[last].Spoke? && events[last].name == name) {
      HeardIsNamed(events[..last], name);
      var i :| 0 <= i < last && events[..last][i].Spoke? && events[..last][i].name == name;
      assert events[i].Spoke? && events[i].name == name;
    }
  }

  /** Who was heard at or after some time still was after more events. */
  lemma {:induction false} HeardAfterGrows(events: seq<Event>, e: Event, name: string, t: Time, n: string)
    requires Proper(events) && Clock(events) <= e.now
    requires n in HeardAfter(events, name, t)
    ensures n in HeardAfter(events + [e], name, t)
  {
    hide Proper, LastHeard;
    LastHeardNow(events, e, n);
    HeardInThePast(events, n);
    HeardIsNamed(events + [e], n);
  }

  lemma {:induction false} StillHeardAfter(events: seq<Event>, e: Event, name: string, t: Time)
    requires Proper(events) && Clock(events) <= e.now
    ensures |HeardAfter(events, name, t)| <= |HeardAfter(events + [e], name, t)|
  {
    hide Proper, HeardAfter;
    var before, after := HeardAfter(events, name, t), HeardAfter(events + [e], name, t);
    forall n | n in before
      ensures n in after
    {
      HeardAfterGrows(events, e, name, t, n);
    }
    assert after == before + (after - before);
  }

  /** An eviction leaves 255 names as recent as the evicted one, and the new one. */
  lemma {:induction false} EvictedForMany(purged: Book, events: seq<Event>, e: Event, t: Time)
    requires Proper(events) && Clock(events) <= e.now && e.Spoke?
    requires MostRecent(purged, events) && |purged| >= HEARD_CAP && e.name !in purged
    requires IsOldest(purged, e.oldest) && purged[e.oldest].last == t
    ensures |HeardAfter(events + [e], e.oldest, t)| >= HEARD_CAP
  {
    hide Proper, HeardAfter, LastHeard;
    var others := purged.Keys - {e.oldest} + {e.name};
    var later := HeardAfter(events + [e], e.oldest, t);
    forall n | n in others
      ensures n in later
    {
      HeardLater(purged, events, e, t, n);
    }
    assert later == others + (later - others);
    assert |purged.Keys - {e.oldest}| == |purged| - 1;
  }

  lemma {:induction false} HeardLater(purged: Book, events: seq<Event>, e: Event, t: Time, n: string)
    requires Proper(events) && Clock(events) <= e.now && e.Spoke?
    requires MostRecent(purged, events) && e.name !in purged
    requires IsOldest(purged, e.oldest) && purged[e.oldest].last == t
    requires n != e.oldest && (n in purged || n == e.name)
    ensures n in HeardAfter(events + [e], e.oldest, t)
  {
    hide Proper, LastHeard;
    LastHeardNow(events, e, n);
    HeardIsNamed(events + [e], n);
    HeardInThePast(events, e.oldest);
  }

  ghost predicate Excused(events: seq<Event>, name: string)
    requires Standing(events, name).Some?
  {
    || name in Kept(events)
    || Outlived(events, name)
    || |HeardAfter(events, name, Standing(events, name).value)| >= 256
  }

  lemma {:induction false} DroppedBySpeech(events: seq<Event>, e: Event, name: string)
    requires Proper(events) && Clock(events) <= e.now && e.Spoke? && e.name != name
    requires MayEvict(Kept(events), e.name, e.now, e.retention, e.oldest)
    requires Standing(events, name).Some? && name in Kept(events)
    ensures var t := Standing(events, name).value;
      || name in Note(Kept(events), e.name, e.session, e.now, e.retention, e.oldest)
      || Since(t, e.now) > e.retention
      || |HeardAfter(events + [e], name, t)| >= HEARD_CAP
  {
    var book := Kept(events);
    var purged := Purge(book, e.now, e.retention);
    BookHoldsMostRecent(events);
    StandingIsLast(events, name);
    hide Kept, Proper, MostRecent, HeardAfter, Standing, LastHeard;
    assert book[name].last == Standing(events, name).value by { LastIs(book, events, name); }
    if |book| >= HEARD_CAP && e.name !in book && |purged| >= HEARD_CAP && name == e.oldest && name in purged {
      PurgeKeeps(book, events, e.now, e.retention);
      EvictedForMany(purged, events, e, book[name].last);
    }
  }

  lemma {:induction false} LastIs(book: Book, events: seq<Event>, name: string)
    requires MostRecent(book, events) && name in book
    ensures LastHeard(events, name).Some? && LastHeard(events, name).value.0 == book[name].last
  {
  }

  /**
   * A name heard since the last clearing is in the book, unless it has outlived the retention time or
   * at least 256 other names were heard as recently.
   */
  lemma {:induction false} NobodyForgottenEarly(events: seq<Event>, name: string)
    requires Proper(events) && Standing(events, name).Some?
    ensures Excused(events, name)
  {
    hide HeardAfter, MayEvict, Note, Purge;
    var front, e := events[..|events| - 1], events[|events| - 1];
    assert front + [e] == events;
    if e.Spoke? && e.name == name {
      assert name in Kept(events) by { NotedIsKept(Kept(front), e); }
    } else {
      var t := Standing(front, name).value;
      NobodyForgottenEarly(front, name);
      StillHeardAfter(front, e, name, t);
      if name in Kept(front) {
        if e.Spoke? {
          DroppedBySpeech(front, e, name);
        } else {
          DroppedByExpiry(front, e, name);
        }
      }
    }
  }

  lemma {:induction false} NotedIsKept(book: Book, e: Event)
    requires e.Spoke?
    ensures e.name in Note(book, e.name, e.session, e.now, e.retention, e.oldest)
  {
  }

  lemma {:induction false} DroppedByExpiry(events: seq<Event>, e: Event, name: string)
    requires Proper(events) && e.Expired?
    requires Standing(events, name).Some? && name in Kept(events)
    ensures name in Purge(Kept(events), e.now, e.retention) || Since(Standing(events, name).value, e.now) > e.retention
  {
    BookHoldsMostRecent(events);
    StandingIsLast(events, name);
    hide Kept, Proper, MostRecent, Standing, LastHeard;
    LastIs(Kept(events), events, name);
  }

  // ----- The list as the server updates it -----

  lemma {:induction false} ProperNext(events: seq<Event>, e: Event)
    requires Proper(events) && Clock(events) <= e.now
    requires e.Spoke? ==> MayEvict(Kept(events), e.name, e.now, e.retention, e.oldest)
    ensures Proper(events + [e]) && Kept(events + [e]) == Apply(Kept(events), e) && Clock(events + [e]) == e.now
  {
    hide Apply, MayEvict;
    assert (events + [e])[..|events|] == events;
  }

  class HeardList {
    var heard: Book
    ghost var events: seq<Event>

    /** The list is what everything that happened to it so far leaves. */
    ghost predicate Valid()
      reads this
    {
      heard == Kept(events) && Proper(events)
    }

    constructor ()
      ensures Valid() && events == []
    {
      heard, events := map[], [];
    }

    /** Marks that `name` spoke to the owner of this list, now. */
    method NoteHeard(name: string, session: u32, now: Time, retention: nat)
      requires Valid() && Clock(events) <= now
      modifies this
      ensures Valid() && name in heard && heard[name].last == now && heard[name].session == session
      ensures heard[name].secs == if name in old(heard) then (old(heard)[name].secs + 1) % 0x1_0000_0000 else 1
      ensures exists oldest :: events == old(events) + [Spoke(name, session, now, retention, oldest)]
      ensures |heard| <= 256 && MostRecent(heard, events)
    {
      hide MostRecent, Kept, Proper;
      var book, oldest := Upsert(heard, name, session, now, retention);
      ghost var e := Spoke(name, session, now, retention, oldest);
      ProperNext(events, e);
      heard, events := book, events + [e];
      BookHoldsMostRecent(events);
    }

    /** Forgets who has not spoken for longer than the retention time. */
    method Expire(now: Time, retention: nat)
      requires Valid() && Clock(events) <= now
      modifies this
      ensures Valid() && events == old(events) + [Expired(now, retention)]
      ensures forall n :: n in heard <==> n in old(heard) && Since(old(heard)[n].last, now) <= retention
      ensures forall n :: n in heard ==> heard[n] == old(heard)[n]
      ensures |heard| <= 256 && MostRecent(heard, events)
    {
      hide MostRecent, Kept, Proper;
      ProperNext(events, Expired(now, retention));
      heard, events := Purge(heard, now, retention), events + [Expired(now, retention)];
      BookHoldsMostRecent(events);
    }

    method Clear(ghost now: Time)
      requires Valid() && Clock(events) <= now
      modifies this
      ensures Valid() && heard == map[] && events == old(events) + [Cleared(now)]
    {
      hide Kept, Proper;
      ProperNext(events, Cleared(now));
      heard, events := map[], events + [Cleared(now)];
    }
  }

  /** Makes room if need be, then enters or updates the speaker. */
  method Upsert(book: Book, name: string, session: u32, now: Time, retention: nat)
    returns (heard: Book, ghost oldest: string)
    ensures name in heard && heard[name].last == now && heard[name].session == session
    ensures heard[name].secs == if name in book then (book[name].secs + 1) % 0x1_0000_0000 else 1
    ensures forall n :: n in heard && n != name ==> n in book && heard[n] == book[n]
    ensures MayEvict(book, name, now, retention, oldest)
    ensures heard == Note(book, name, session, now, retention, oldest)
  {
    heard, oldest := book, "";
    if |heard| >= HEARD_CAP && name !in heard {
      heard := Purge(heard, now, retention);
      if |heard| >= HEARD_CAP {
        var k := FindOldest(heard);
        oldest := k;
        heard := heard - {k};
      }
    }
    if name !in heard {
      heard := heard[name := Entry(session, now, 0)];
    }
    var e := heard[name];
    if e.session != session {
      e := e.(session := session);
    }
    heard := heard[name := e.(last := now, secs := (e.secs + 1) % 0x1_0000_0000)];
  }
}
