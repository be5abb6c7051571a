/**
 * Spend-hold bookkeeping (packages/cdp-spend-store/src/hold-client.js): queues of
 * request ids by match key, two id sets and a payload map, updated across async
 * steps. The index is proved to be a plain list of holds in arrival order.
 *
 * Entries and payloads are known to the code by object identity; here they are
 * numbers. HTTP requests are not modelled: an operation's synchronous parts are.
 */
module SpendBook {
  import opened Bytes

  type Id = string
  type Key = string
  type Obj = nat
  type Payload = nat

  // ---- match keys ----------------------------------------------------------

  datatype Entry = Entry(amount: int, asset: string, network: string, payTo: string)

  function Digit(d: nat): char
    requires d < 10
  {
    '0' + d as char
  }

  /** BigInt.prototype.toString. */
  function Decimal(n: int): string
    decreases n < 0, n
  {
    if n < 0 then "-" + Decimal(-n)
    else if n < 10 then [Digit(n)]
    else Decimal(n / 10) + [Digit(n % 10)]
  }

  /** matchKey; `lower` is toLowerCase. */
  function MatchKey(lower: string -> string, e: Entry): Key {
    Decimal(e.amount) + "|" + (lower(e.asset) + "|" + (lower(e.network) + "|" + lower(e.payTo)))
  }

  function Bars(s: string): nat {
    if s == "" then 0 else (if s[0] == '|' then 1 else 0) + Bars(s[1..])
  }

  lemma {:induction false} BarsConcat(s: string, t: string)
    ensures Bars(s + t) == Bars(s) + Bars(t)
  {
    if s == "" {
      assert s + t == t;
    } else {
      assert (s + t)[1..] == s[1..] + t;
      BarsConcat(s[1..], t);
    }
  }

  lemma {:induction false} OneBar()
    ensures Bars("|") == 1
  {
  }

  lemma {:induction false} NoShorterField(a: string, b: string, s: string, t: string)
    requires a + "|" + s == b + "|" + t && |a| < |b|
    ensures Bars(a) < Bars(b)
  {
    var n := |a|;
    assert (a + "|" + s)[..n] == a && (b + "|" + t)[..n] == b[..n];
    assert (a + "|" + s)[n] == '|' && (b + "|" + t)[n] == b[n];
    assert b == (a + "|") + b[n + 1..];
    BarsConcat(a + "|", b[n + 1..]);
    BarsConcat(a, "|");
    OneBar();
  }

  /** Fields before a separator are recovered when they hold equally many separators. */
  lemma {:induction false} SplitUnique(a: string, b: string, s: string, t: string)
    requires a + "|" + s == b + "|" + t && Bars(a) == Bars(b)
    ensures a == b && s == t
  {
    if |a| < |b| {
      NoShorterField(a, b, s, t);
    } else if |b| < |a| {
      NoShorterField(b, a, t, s);
    } else {
      assert (a + "|" + s)[..|a|] == a && (b + "|" + t)[..|a|] == b;
      assert (a + "|" + s)[|a| + 1..] == s && (b + "|" + t)[|a| + 1..] == t;
    }
  }

  /** Only digits, after a sign for a negative number. */
  lemma {:induction false} DecimalShape(n: int)
    ensures Bars(Decimal(n)) == 0 && Decimal(n) != []
    ensures (Decimal(n)[0] == '-') <==> n < 0
    decreases n < 0, n
  {
    if n < 0 {
      DecimalShape(-n);
      BarsConcat("-", Decimal(-n));
    } else if n >= 10 {
      DecimalShape(n / 10);
      BarsConcat(Decimal(n / 10), [Digit(n % 10)]);
    }
  }

  lemma {:induction false} NaturalInjective(m: nat, n: nat)
    requires Decimal(m) == Decimal(n)
    ensures m == n
    decreases m
  {
    if m >= 10 {
      DecimalShape(m / 10);
    }
    if n >= 10 {
      DecimalShape(n / 10);
    }
    var s, t := Decimal(m), Decimal(n);
    assert s[|s| - 1] == Digit(m % 10) && t[|t| - 1] == Digit(n % 10);
    if m >= 10 && n >= 10 {
      assert s[..|s| - 1] == Decimal(m / 10) && t[..|t| - 1] == Decimal(n / 10);
      NaturalInjective(m / 10, n / 10);
    }
  }

  lemma {:induction false} DecimalInjective(m: int, n: int)
    requires Decimal(m) == Decimal(n)
    ensures m == n
  {
    DecimalShape(m);
    DecimalShape(n);
    if m < 0 {
      assert Decimal(m)[1..] == Decimal(-m) && Decimal(n)[1..] == Decimal(-n);
      NaturalInjective(-m, -n);
    } else {
      NaturalInjective(m, n);
    }
  }

  predicate SameFields(lower: string -> string, e: Entry, f: Entry) {
    e.amount == f.amount && lower(e.asset) == lower(f.asset) && lower(e.network) == lower(f.network)
    && lower(e.payTo) == lower(f.payTo)
  }

  predicate SameBars(lower: string -> string, e: Entry, f: Entry) {
    Bars(lower(e.asset)) == Bars(lower(f.asset)) && Bars(lower(e.network)) == Bars(lower(f.network))
  }

  /**
   * Entries share a key when amount, asset, network and payee agree up to case. The
   * converse holds exactly when assets and networks hold equally many separators.
   */
  lemma {:induction false} MatchKeyExact(lower: string -> string, e: Entry, f: Entry)
    ensures SameFields(lower, e, f) ==> MatchKey(lower, e) == MatchKey(lower, f)
    ensures MatchKey(lower, e) == MatchKey(lower, f) ==> (SameFields(lower, e, f) <==> SameBars(lower, e, f))
  {
    hide Decimal, Bars;
    if MatchKey(lower, e) == MatchKey(lower, f) && SameBars(lower, e, f) {
      DecimalShape(e.amount);
      DecimalShape(f.amount);
      var n1, n2 := lower(e.network) + "|" + lower(e.payTo), lower(f.network) + "|" + lower(f.payTo);
      var a1, a2 := lower(e.asset) + "|" + n1, lower(f.asset) + "|" + n2;
      SplitUnique(Decimal(e.amount), Decimal(f.amount), a1, a2);
      DecimalInjective(e.amount, f.amount);
      SplitUnique(lower(e.asset), lower(f.asset), n1, n2);
      SplitUnique(lower(e.network), lower(f.network), lower(e.payTo), lower(f.payTo));
    }
  }

  /** Without that condition a separator inside a field lets two different entries share a key. */
  lemma {:induction false} MatchKeyCollides(lower: string -> string)
    requires lower("usd|base") == "usd|base" && lower("x") == "x" && lower("0xab") == "0xab"
    requires lower("usd") == "usd" && lower("base|x") == "base|x"
    ensures var e, f := Entry(5, "usd|base", "x", "0xab"), Entry(5, "usd", "base|x", "0xab");
            MatchKey(lower, e) == MatchKey(lower, f) && !SameFields(lower, e, f)
  {
    hide Decimal;
    assert "usd|base" == "usd" + "|" + "base" && "base|x" == "base" + "|" + "x";
    BarMoves("usd", "base", "x", "0xab");
  }

  /** The text does not show which of two separators ends the first field. */
  lemma {:induction false} BarMoves(u: string, v: string, w: string, t: string)
    ensures (u + "|" + v) + "|" + (w + "|" + t) == u + "|" + ((v + "|" + w) + "|" + t)
  {
  }

  // ---- holds in arrival order ----------------------------------------------

  datatype Hold = Hold(id: Id, key: Key)

  function Ids(w: seq<Hold>): set<Id> { set h | h in w :: h.id }

  function Keys(w: seq<Hold>): set<Key> { set h | h in w :: h.key }

  ghost predicate Distinct(w: seq<Hold>) {
    forall i, j :: 0 <= i < j < |w| ==> w[i].id != w[j].id
  }

  /** The part of a hold's queue that the hold itself is. */
  function Own(h: Hold, key: Key): seq<Id> { if h.key == key then [h.id] else [] }

  /** The holds with one key, oldest first. */
  function Queue(w: seq<Hold>, key: Key): seq<Id> {
    if w == [] then [] else Own(w[0], key) + Queue(w[1..], key)
  }

  /** The queue map that indexes a list: one queue for each key present. */
  function Index(w: seq<Hold>): map<Key, seq<Id>> {
    map key | key in Keys(w) :: Queue(w, key)
  }

  function Remove(w: seq<Hold>, id: Id): seq<Hold> {
    if w == [] then [] else if w[0].id == id then w[1..] else [w[0]] + Remove(w[1..], id)
  }

  /** The oldest hold with a key. */
  function Oldest(w: seq<Hold>, key: Key): Option<Id> {
    if w == [] then None else if w[0].key == key then Some(w[0].id) else Oldest(w[1..], key)
  }

  /** queue.indexOf. */
  function IndexOf(q: seq<Id>, id: Id): (at: int)
    ensures -1 <= at < |q|
    ensures at == -1 <==> id !in q
    ensures at >= 0 ==> q[at] == id && id !in q[..at]
  {
    if q == [] then -1
    else if q[0] == id then 0
    else
      var at := IndexOf(q[1..], id);
      if at < 0 then -1 else at + 1
  }

  /** queue.splice(at, 1). */
  function Splice<T(!new)>(q: seq<T>, at: nat): seq<T>
    requires at < |q|
  {
    q[..at] + q[at + 1..]
  }

  /** queue.splice(queue.indexOf(id), 1), if present. */
  function Without(q: seq<Id>, id: Id): seq<Id> {
    var at := IndexOf(q, id);
    if at < 0 then q else Splice(q, at)
  }

  lemma {:induction false} QueueStep(w: seq<Hold>, key: Key)
    ensures Queue(w, key) == if w == [] then [] else Own(w[0], key) + Queue(w[1..], key)
  {
  }

  lemma {:induction false} QueueAppend(w: seq<Hold>, h: Hold, key: Key)
    ensures Queue(w + [h], key) == Queue(w, key) + Own(h, key)
  {
    hide Queue, Own;
    QueueStep(w, key);
    QueueStep(w + [h], key);
    if w == [] {
      assert (w + [h])[1..] == w && Own(h, key) + [] == [] + Own(h, key);
    } else {
      assert (w + [h])[1..] == w[1..] + [h];
      QueueAppend(w[1..], h, key);
      ConcatAssoc(Own(w[0], key), Queue(w[1..], key), Own(h, key));
    }
  }

  lemma {:induction false} QueueMembers(w: seq<Hold>, key: Key, id: Id)
    ensures id in Queue(w, key) <==> Hold(id, key) in w
    ensures Queue(w, key) == [] <==> key !in Keys(w)
  {
    if w != [] {
      QueueMembers(w[1..], key, id);
      assert w == [w[0]] + w[1..];
      assert key in Keys(w) <==> w[0].key == key || key in Keys(w[1..]);
    }
  }

  lemma {:induction false} IndexOfCons(x: Id, q: seq<Id>, id: Id)
    ensures IndexOf([x] + q, id)
         == if x == id then 0 else if IndexOf(q, id) < 0 then -1 else IndexOf(q, id) + 1
  {
    assert ([x] + q)[1..] == q;
  }

  lemma {:induction false} ConsSplice<T(!new)>(x: T, q: seq<T>, at: nat)
    requires at < |q|
    ensures Splice([x] + q, at + 1) == [x] + Splice(q, at)
  {
    assert ([x] + q)[..at + 1] == [x] + q[..at];
    assert ([x] + q)[at + 2..] == q[at + 1..];
  }

  lemma {:induction false} SpliceHead<T(!new)>(x: T, q: seq<T>)
    ensures Splice([x] + q, 0) == q
  {
  }

  lemma {:induction false} WithoutStep(x: Id, q: seq<Id>, id: Id)
    ensures Without([x] + q, id) == if x == id then q else [x] + Without(q, id)
  {
    hide IndexOf, Splice;
    IndexOfCons(x, q, id);
    SpliceHead(x, q);
    if IndexOf(q, id) >= 0 {
      ConsSplice(x, q, IndexOf(q, id));
    }
  }

  lemma {:induction false} RemoveAbsent(w: seq<Hold>, id: Id)
    requires id !in Ids(w)
    ensures Remove(w, id) == w
  {
    if w != [] {
      assert w[0] in w && forall h :: h in w[1..] ==> h in w;
      RemoveAbsent(w[1..], id);
    }
  }

  /** Removing an id from the list removes it from every queue of the index. */
  lemma {:induction false} QueueRemove(w: seq<Hold>, id: Id, key: Key)
    requires Distinct(w)
    ensures Queue(Remove(w, id), key) == Without(Queue(w, key), id)
  {
    hide Without;
    if w == [] {
      WithoutAbsent([], id);
    } else {
      var rest := Queue(w[1..], key);
      assert [] + rest == rest;
      if w[0].id == id {
        forall h | h in w[1..] ensures h.id != id {
          var i :| 0 <= i < |w[1..]| && w[1..][i] == h;
          assert w[i + 1] == h;
        }
        QueueMembers(w[1..], key, id);
        WithoutAbsent(rest, id);
        WithoutStep(id, rest, id);
      } else {
        QueueRemove(w[1..], id, key);
        WithoutStep(w[0].id, rest, id);
        var shorter := Remove(w[1..], id);
        assert ([w[0]] + shorter)[1..] == shorter;
        assert [] + Queue(shorter, key) == Queue(shorter, key);
      }
    }
  }

  lemma {:induction false} WithoutAbsent(q: seq<Id>, id: Id)
    requires id !in q
    ensures Without(q, id) == q
  {
  }

  lemma {:induction false} RemoveStep(w: seq<Hold>, id: Id)
    ensures Remove(w, id) == if w == [] then [] else if w[0].id == id then w[1..] else [w[0]] + Remove(w[1..], id)
  {
  }

  lemma {:induction false} DistinctTail(w: seq<Hold>)
    requires Distinct(w) && w != []
    ensures Distinct(w[1..])
    ensures forall h :: h in w[1..] ==> h.id != w[0].id
  {
    forall h | h in w[1..] ensures h.id != w[0].id {
      var i :| 0 <= i < |w[1..]| && w[1..][i] == h;
      assert w[i + 1] == h;
    }
  }

  lemma {:induction false} RemoveMembers(w: seq<Hold>, id: Id)
    requires Distinct(w)
    ensures Distinct(Remove(w, id))
    ensures forall h :: h in Remove(w, id) <==> h in w && h.id != id
    ensures Ids(Remove(w, id)) == Ids(w) - {id}
  {
    hide Distinct, Remove, Ids;
    RemoveStep(w, id);
    if w != [] {
      DistinctTail(w);
      Members(w[0], w[1..]);
      assert w == [w[0]] + w[1..];
      if w[0].id != id {
        RemoveMembers(w[1..], id);
        DistinctCons(w[0], Remove(w[1..], id));
        Members(w[0], Remove(w[1..], id));
      }
    }
    IdsWithout(w, Remove(w, id), id);
  }

  lemma {:induction false} Members(h: Hold, w: seq<Hold>)
    ensures forall g :: g in [h] + w <==> g == h || g in w
  {
  }

  lemma {:induction false} IdsWithout(w: seq<Hold>, less: seq<Hold>, id: Id)
    requires forall h :: h in less <==> h in w && h.id != id
    ensures Ids(less) == Ids(w) - {id}
  {
  }

  lemma {:induction false} DistinctCons(h: Hold, w: seq<Hold>)
    requires Distinct(w) && forall g :: g in w ==> g.id != h.id
    ensures Distinct([h] + w)
  {
  }

  /** The oldest hold of a key heads its queue, and taking it shifts that queue alone. */
  lemma {:induction false} OldestHeadsQueue(w: seq<Hold>, key: Key)
    ensures Oldest(w, key) == if Queue(w, key) == [] then None else Some(Queue(w, key)[0])
  {
    if w != [] {
      OldestHeadsQueue(w[1..], key);
    }
  }

  lemma {:induction false} WithoutHead(q: seq<Id>)
    requires q != []
    ensures Without(q, q[0]) == q[1..]
  {
  }

  // ---- the book as a value -------------------------------------------------

  /** Waiting holds in arrival order, bound ids, and which payload is bound to which id. */
  datatype Book = Book(
    ids: map<Obj, Id>, waiting: seq<Hold>, bound: set<Id>, byPayload: map<Payload, Id>)

  const EMPTY := Book(map[], [], {}, map[])

  ghost predicate BookOk(b: Book) { Distinct(b.waiting) && Ids(b.waiting) !! b.bound }

  function Started(b: Book, entry: Obj, requestId: Id): Book {
    if entry in b.ids then b else b.(ids := b.ids[entry := requestId])
  }

  function Pushed(b: Book, id: Id, key: Key): Book {
    if id in Ids(b.waiting) || id in b.bound then b else b.(waiting := b.waiting + [Hold(id, key)])
  }

  function Dropped(b: Book, id: Id): Book {
    b.(waiting := Remove(b.waiting, id), bound := b.bound - {id})
  }

  function Noted(b: Book, payload: Payload, key: Key): Book {
    match Oldest(b.waiting, key)
    case None => b
    case Some(id) =>
      b.(waiting := Remove(b.waiting, id), bound := b.bound + {id}, byPayload := b.byPayload[payload := id])
  }

  // ---- the object ----------------------------------------------------------

  class Client {
    var idsByObject: map<Obj, Id>
    var queues: map<Key, seq<Id>>
    var byPayload: map<Payload, Id>
    var queuedIds: set<Id>
    var boundIds: set<Id>
    ghost var waiting: seq<Hold>

    ghost function View(): Book
      reads this
    {
      Book(idsByObject, waiting, boundIds, byPayload)
    }

    /**
     * The queues hold exactly the queued ids, each once, under its own key, with no
     * empty queue and none of them bound.
     */
    ghost predicate Valid()
      reads this
    {
      BookOk(View()) && queues == Index(waiting) && queuedIds == Ids(waiting)
    }

    constructor ()
      ensures Valid() && View() == EMPTY
    {
      idsByObject, queues, byPayload, queuedIds, boundIds, waiting := map[], map[], map[], {}, {}, [];
    }

    /** holdEntry up to its request: an entry object gets one id for good. */
    method HoldStart(entry: Obj, generated: Id) returns (requestId: Id)
      requires Valid()
      modifies this`idsByObject
      ensures Valid() && View() == Started(old(View()), entry, generated)
      ensures entry in idsByObject && requestId == idsByObject[entry]
    {
      if entry !in idsByObject {
        idsByObject := idsByObject[entry := generated];
      }
      requestId := idsByObject[entry];
    }

    /** pushQueue, called when the gateway has accepted the hold. */
    method PushQueue(lower: string -> string, entry: Entry, requestId: Id)
      requires Valid()
      modifies this`queues, this`queuedIds, this`waiting
      ensures Valid() && View() == Pushed(old(View()), requestId, MatchKey(lower, entry))
    {
      hide Queue, Keys, Remove, MatchKey;
      if requestId in queuedIds || requestId in boundIds {
        return;
      }
      var key := MatchKey(lower, entry);
      var queue := if key in queues then queues[key] else [];
      queue := queue + [requestId];
      queues := queues[key := queue];
      queuedIds := queuedIds + {requestId};
      ghost var h := Hold(requestId, key);
      AppendIndex(waiting, h);
      waiting := waiting + [h];
    }

    /** dropQueue. */
    method DropQueue(requestId: Id)
      requires Valid()
      modifies this`queues, this`queuedIds, this`boundIds, this`waiting
      ensures Valid() && View() == Dropped(old(View()), requestId)
    {
      hide Queue, Keys, Remove, Index, Without;
      queuedIds := queuedIds - {requestId};
      boundIds := boundIds - {requestId};
      ghost var before := queues;
      var todo := queues.Keys;
      while todo != {}
        invariant todo <= before.Keys && queues.Keys <= before.Keys
        invariant forall key :: key in todo ==> key in queues && queues[key] == before[key]
        invariant forall key :: key in before.Keys - todo ==>
                    (key in queues <==> Without(before[key], requestId) != [])
        invariant forall key :: key in queues.Keys - todo ==> queues[key] == Without(before[key], requestId)
        modifies this`queues
        decreases |todo|
      {
        var key :| key in todo;
        todo := todo - {key};
        var queue := Without(queues[key], requestId);
        queues := if queue == [] then queues - {key} else queues[key := queue];
      }
      RemoveIndex(waiting, requestId, queues);
      waiting := Remove(waiting, requestId);
    }

    /** releaseEntry up to its request; an entry never held is already released. */
    method ReleaseEntry(entry: Obj) returns (released: Option<Id>)
      requires Valid()
      modifies this`queues, this`queuedIds, this`boundIds, this`waiting
      ensures Valid()
      ensures released == if entry in idsByObject then Some(idsByObject[entry]) else None
      ensures View() == if released.None? then old(View()) else Dropped(old(View()), released.value)
    {
      if entry !in idsByObject {
        return None;
      }
      DropQueue(idsByObject[entry]);
      return Some(idsByObject[entry]);
    }

    /** notePayload: bind the payload to the oldest waiting hold of its key. */
    method NotePayload(lower: string -> string, payload: Option<Payload>, amount: Option<int>,
                       asset: string, network: string, payTo: string)
      requires Valid()
      modifies this`queues, this`queuedIds, this`boundIds, this`byPayload, this`waiting
      ensures Valid()
      ensures View() == if amount.None? || payload.None? then old(View())
                        else Noted(old(View()), payload.value,
                                   MatchKey(lower, Entry(amount.value, asset, network, payTo)))
    {
      hide Queue, Keys, Remove, Without, MatchKey;
      if amount.None? || payload.None? {
        return;
      }
      var key := MatchKey(lower, Entry(amount.value, asset, network, payTo));
      OldestHeadsQueue(waiting, key);
      QueueMembers(waiting, key, "");
      if key !in queues || |queues[key]| == 0 {
        return;
      }
      var queue := queues[key];
      var requestId := queue[0];
      queue := queue[1..];
      TakeIndex(waiting, key);
      queues := if |queue| == 0 then queues - {key} else queues[key := queue];
      queuedIds := queuedIds - {requestId};
      boundIds := boundIds + {requestId};
      byPayload := byPayload[payload.value := requestId];
      RemoveMembers(waiting, requestId);
      waiting := Remove(waiting, requestId);
    }
  }

  /** Pushing at the end of one queue indexes the longer list. */
  lemma {:induction false} AppendIndex(w: seq<Hold>, h: Hold)
    requires Distinct(w) && h.id !in Ids(w)
    ensures Distinct(w + [h]) && Ids(w + [h]) == Ids(w) + {h.id}
    ensures Index(w + [h]) == Index(w)[h.key := (if h.key in Index(w) then Index(w)[h.key] else []) + [h.id]]
  {
    hide Queue, Index, Distinct, Ids, Keys;
    AppendDistinct(w, h);
    AppendQueues(w, h);
  }

  lemma {:induction false} AppendDistinct(w: seq<Hold>, h: Hold)
    requires Distinct(w) && h.id !in Ids(w)
    ensures Distinct(w + [h]) && Ids(w + [h]) == Ids(w) + {h.id} && Keys(w + [h]) == Keys(w) + {h.key}
  {
    forall g | g in w ensures g.id != h.id {
      assert g.id in Ids(w);
    }
    assert forall g :: g in w + [h] <==> g in w || g == h;
  }

  lemma {:induction false} AppendQueues(w: seq<Hold>, h: Hold)
    requires Keys(w + [h]) == Keys(w) + {h.key}
    ensures Index(w + [h]) == Index(w)[h.key := (if h.key in Index(w) then Index(w)[h.key] else []) + [h.id]]
  {
    hide Queue, Keys;
    QueueMembers(w, h.key, h.id);
    var longer := Index(w + [h]);
    var grown := Index(w)[h.key := (if h.key in Index(w) then Index(w)[h.key] else []) + [h.id]];
    forall key | key in grown ensures longer[key] == grown[key] {
      QueueAppend(w, h, key);
      assert Queue(w, key) + [] == Queue(w, key);
    }
    assert longer.Keys == grown.Keys;
  }

  /** Queues that lost an id, without the ones left empty, index the list without it. */
  lemma {:induction false} RemoveIndex(w: seq<Hold>, id: Id, queues: map<Key, seq<Id>>)
    requires Distinct(w)
    requires queues.Keys <= Index(w).Keys
    requires forall key :: key in Index(w).Keys ==> (key in queues <==> Without(Index(w)[key], id) != [])
    requires forall key :: key in queues ==> queues[key] == Without(Index(w)[key], id)
    ensures Distinct(Remove(w, id)) && Ids(Remove(w, id)) == Ids(w) - {id}
    ensures queues == Index(Remove(w, id))
  {
    hide Queue, Keys, Remove, Without;
    var shorter := Remove(w, id);
    RemoveMembers(w, id);
    forall key
      ensures key in queues <==> key in Index(shorter)
      ensures key in queues ==> queues[key] == Index(shorter)[key]
    {
      QueueRemove(w, id, key);
      QueueMembers(w, key, id);
      QueueMembers(shorter, key, id);
      WithoutAbsent([], id);
    }
  }

  /** Shifting one queue indexes the list without its oldest hold. */
  lemma {:induction false} TakeIndex(w: seq<Hold>, key: Key)
    requires Distinct(w) && key in Index(w) && Index(w)[key] != []
    ensures var queue := Index(w)[key];
            Index(Remove(w, queue[0]))
            == if |queue| == 1 then Index(w) - {key} else Index(w)[key := queue[1..]]
  {
    hide Queue, Keys, Remove, Without;
    var queue := Index(w)[key];
    var id := queue[0];
    var queues := if |queue| == 1 then Index(w) - {key} else Index(w)[key := queue[1..]];
    WithoutHead(queue);
    QueueMembers(w, key, id);
    forall other | other in Index(w) && other != key
      ensures Without(Index(w)[other], id) == Index(w)[other] != []
    {
      QueueMembers(w, other, id);
      OneKey(w, id, key, other);
      WithoutAbsent(Queue(w, other), id);
    }
    RemoveIndex(w, id, queues);
  }

  lemma {:induction false} OneKey(w: seq<Hold>, id: Id, key: Key, other: Key)
    requires Distinct(w) && Hold(id, key) in w && key != other
    ensures Hold(id, other) !in w
  {
    var i :| 0 <= i < |w| && w[i] == Hold(id, key);
    forall j | 0 <= j < |w| && j != i ensures w[j].id != id {
      assert w[if i < j then i else j].id != w[if i < j then j else i].id;
    }
    assert w[i] != Hold(id, other);
  }

  // ---- every interleaving --------------------------------------------------

  /**
   * The synchronous steps of the client. A hold's two steps are separated by its
   * request, so any other steps may come between them.
   */
  datatype Step =
    | Start(entry: Obj, generated: Id)
    | Accepted(entry: Obj, key: Key)
    | Release(entry: Obj)
    | Note(payload: Payload, key: Key)

  function After(b: Book, s: Step): Book {
    match s
    case Start(entry, generated) => Started(b, entry, generated)
    case Accepted(entry, key) => if entry in b.ids then Pushed(b, b.ids[entry], key) else b
    case Release(entry) => if entry in b.ids then Dropped(b, b.ids[entry]) else b
    case Note(payload, key) => Noted(b, payload, key)
  }

  function Run(b: Book, steps: seq<Step>): Book {
    if steps == [] then b else After(Run(b, steps[..|steps| - 1]), steps[|steps| - 1])
  }

  lemma {:induction false} OldestWaits(w: seq<Hold>, key: Key)
    ensures Oldest(w, key).Some? ==> Hold(Oldest(w, key).value, key) in w
    ensures Oldest(w, key).None? <==> key !in Keys(w)
  {
    OldestHeadsQueue(w, key);
    QueueMembers(w, key, if Oldest(w, key).Some? then Oldest(w, key).value else "");
  }

  lemma {:induction false} StepKeepsOk(b: Book, s: Step)
    requires BookOk(b)
    ensures BookOk(After(b, s))
  {
    hide Remove, Oldest;
    match s
    case Start(_, _) =>
    case Accepted(entry, key) =>
      if entry in b.ids && b.ids[entry] !in Ids(b.waiting) {
        AppendIndex(b.waiting, Hold(b.ids[entry], key));
      }
    case Release(entry) =>
      if entry in b.ids {
        RemoveMembers(b.waiting, b.ids[entry]);
      }
    case Note(_, key) =>
      if Oldest(b.waiting, key).Some? {
        RemoveMembers(b.waiting, Oldest(b.waiting, key).value);
      }
  }

  /** In every interleaving no id waits twice, and none both waits and is bound. */
  lemma {:induction false} RunKeepsOk(steps: seq<Step>)
    ensures BookOk(Run(EMPTY, steps))
  {
    hide BookOk, After;
    if steps == [] {
      assert BookOk(EMPTY) by { EmptyOk(); }
    } else {
      RunKeepsOk(steps[..|steps| - 1]);
      StepKeepsOk(Run(EMPTY, steps[..|steps| - 1]), steps[|steps| - 1]);
    }
  }

  lemma {:induction false} EmptyOk()
    ensures BookOk(EMPTY)
  {
  }

  /** notePayload binds the oldest waiting hold of the key: every hold before it has another key. */
  lemma {:induction false} NoteBindsOldest(b: Book, payload: Payload, key: Key) returns (at: nat)
    requires BookOk(b)
    ensures var after := Noted(b, payload, key);
            if key !in Keys(b.waiting) then after == b
            else
              && at < |b.waiting| && b.waiting[at].key == key
              && (forall i :: 0 <= i < at ==> b.waiting[i].key != key)
              && after.waiting == Splice(b.waiting, at)
              && after.bound == b.bound + {b.waiting[at].id}
              && after.byPayload == b.byPayload[payload := b.waiting[at].id]
  {
    hide Remove, Keys;
    at := 0;
    OldestWaits(b.waiting, key);
    if key in Keys(b.waiting) {
      at := OldestAt(b.waiting, key);
      RemoveAt(b.waiting, at);
    }
  }

  lemma {:induction false} OldestAt(w: seq<Hold>, key: Key) returns (at: nat)
    requires Oldest(w, key).Some?
    ensures at < |w| && w[at] == Hold(Oldest(w, key).value, key)
    ensures forall i :: 0 <= i < at ==> w[i].key != key
  {
    if w[0].key == key {
      at := 0;
    } else {
      at := OldestAt(w[1..], key);
      at := at + 1;
      assert forall i :: 0 < i < at ==> w[i] == w[1..][i - 1];
    }
  }

  lemma {:induction false} RemoveAt(w: seq<Hold>, at: nat)
    requires Distinct(w) && at < |w|
    ensures Remove(w, w[at].id) == Splice(w, at)
  {
    hide Remove, Splice, Distinct;
    RemoveStep(w, w[at].id);
    assert w == [w[0]] + w[1..];
    if at == 0 {
      SpliceHead(w[0], w[1..]);
    } else {
      ConsSplice(w[0], w[1..], at - 1);
      DistinctTail(w);
      assert w[1..][at - 1] == w[at] && w[at] in w[1..];
      RemoveAt(w[1..], at - 1);
    }
  }

  // ---- whose hold it is ----------------------------------------------------

  /** Generated ids are new, and an entry object is always queued under its own key. */
  ghost predicate Honest(keyOf: Obj -> Key, b: Book, s: Step) {
    match s
    case Start(_, generated) => generated !in b.ids.Values
    case Accepted(entry, key) => key == keyOf(entry)
    case _ => true
  }

  ghost predicate HonestRun(keyOf: Obj -> Key, steps: seq<Step>) {
    forall i :: 0 <= i < |steps| ==> Honest(keyOf, Run(EMPTY, steps[..i]), steps[i])
  }

  ghost predicate Owner(keyOf: Obj -> Key, b: Book, h: Hold, entry: Obj) {
    entry in b.ids && b.ids[entry] == h.id && h.key == keyOf(entry)
  }

  ghost predicate Owned(keyOf: Obj -> Key, b: Book) {
    && (forall h :: h in b.waiting ==> exists entry :: Owner(keyOf, b, h, entry))
    && (forall e, f :: e in b.ids && f in b.ids && b.ids[e] == b.ids[f] ==> e == f)
  }

  lemma {:induction false} StepKeepsOwned(keyOf: Obj -> Key, b: Book, s: Step)
    requires BookOk(b) && Owned(keyOf, b) && Honest(keyOf, b, s)
    ensures Owned(keyOf, After(b, s))
  {
    hide Remove, Oldest, BookOk;
    var b' := After(b, s);
    forall h | h in b'.waiting ensures exists entry :: Owner(keyOf, b', h, entry) {
      if h in b.waiting {
        var entry :| Owner(keyOf, b, h, entry);
        assert Owner(keyOf, b', h, entry);
      } else {
        NewHold(b, s, h);
        assert Owner(keyOf, b', h, s.entry);
      }
    }
  }

  /** Only an accepted hold adds to the list. */
  lemma {:induction false} NewHold(b: Book, s: Step, h: Hold)
    requires BookOk(b) && h in After(b, s).waiting && h !in b.waiting
    ensures s.Accepted? && s.entry in b.ids && h == Hold(b.ids[s.entry], s.key)
  {
    hide Remove, Oldest;
    match s
    case Start(_, _) =>
    case Accepted(entry, key) =>
    case Release(entry) =>
      if entry in b.ids {
        RemoveMembers(b.waiting, b.ids[entry]);
      }
    case Note(_, key) =>
      if Oldest(b.waiting, key).Some? {
        RemoveMembers(b.waiting, Oldest(b.waiting, key).value);
      }
  }

  /** In every interleaving each waiting id belongs to one entry and waits under that entry's key. */
  lemma {:induction false} HoldsUnderOwnKey(keyOf: Obj -> Key, steps: seq<Step>)
    requires HonestRun(keyOf, steps)
    ensures Owned(keyOf, Run(EMPTY, steps))
  {
    hide Owned, After, Honest, BookOk;
    if steps == [] {
      assert Owned(keyOf, EMPTY) by { EmptyOwned(keyOf); }
    } else {
      var init := steps[..|steps| - 1];
      forall i | 0 <= i < |init| ensures Honest(keyOf, Run(EMPTY, init[..i]), init[i]) {
        assert init[..i] == steps[..i];
      }
      HoldsUnderOwnKey(keyOf, init);
      RunKeepsOk(init);
      StepKeepsOwned(keyOf, Run(EMPTY, init), steps[|init|]);
    }
  }

  lemma {:induction false} EmptyOwned(keyOf: Obj -> Key)
    ensures Owned(keyOf, EMPTY)
  {
  }

  // ---- how often an id is bound --------------------------------------------

  /** The step binds id to a payload. */
  predicate Binds(b: Book, s: Step, id: Id) { s.Note? && Oldest(b.waiting, s.key) == Some(id) }

  /** The step releases id while it is bound. */
  predicate Unbinds(b: Book, s: Step, id: Id) {
    s.Release? && s.entry in b.ids && b.ids[s.entry] == id && id in b.bound
  }

  function BindCount(steps: seq<Step>, id: Id): nat {
    if steps == [] then 0
    else
      var init := steps[..|steps| - 1];
      BindCount(init, id) + (if Binds(Run(EMPTY, init), steps[|init|], id) then 1 else 0)
  }

  function UnbindCount(steps: seq<Step>, id: Id): nat {
    if steps == [] then 0
    else
      var init := steps[..|steps| - 1];
      UnbindCount(init, id) + (if Unbinds(Run(EMPTY, init), steps[|init|], id) then 1 else 0)
  }

  lemma {:induction false} BoundStep(b: Book, s: Step, id: Id)
    requires BookOk(b)
    ensures Binds(b, s, id) ==> id !in b.bound && id in After(b, s).bound && !Unbinds(b, s, id)
    ensures Unbinds(b, s, id) ==> id in b.bound && id !in After(b, s).bound
    ensures !Binds(b, s, id) && !Unbinds(b, s, id) ==> (id in After(b, s).bound <==> id in b.bound)
  {
    hide Remove, Oldest;
    if s.Note? {
      OldestWaits(b.waiting, s.key);
    }
  }

  /**
   * Bindings are conserved: over every run an id has been bound as often as it was
   * released while bound, and once more if it is bound now.
   */
  lemma {:induction false} BindingsBalance(steps: seq<Step>, id: Id)
    ensures BindCount(steps, id) == UnbindCount(steps, id) + (if id in Run(EMPTY, steps).bound then 1 else 0)
  {
    hide Binds, Unbinds, After, BookOk;
    if steps != [] {
      var init := steps[..|steps| - 1];
      BindingsBalance(init, id);
      RunKeepsOk(init);
      BoundStep(Run(EMPTY, init), steps[|init|], id);
    }
  }

  /**
   * A released entry that is held again is bound to a second payload while the first
   * payload still maps to the same id.
   */
  lemma {:induction false} RetryBindsTwice(id: Id, key: Key)
    ensures var steps := [Start(0, id), Accepted(0, key), Note(1, key), Release(0), Accepted(0, key), Note(2, key)];
            var b := Run(EMPTY, steps);
            b.byPayload == map[1 := id, 2 := id] && b.bound == {id} && b.waiting == []
  {
    var h := Hold(id, key);
    var b1 := After(EMPTY, Start(0, id));
    var b2 := After(b1, Accepted(0, key));
    assert b2 == Book(map[0 := id], [h], {}, map[]);
    var b3 := After(b2, Note(1, key));
    assert b3 == Book(map[0 := id], [], {id}, map[1 := id]);
    var b4 := After(b3, Release(0));
    assert b4 == Book(map[0 := id], [], {}, map[1 := id]);
    var b5 := After(b4, Accepted(0, key));
    assert b5 == Book(map[0 := id], [h], {}, map[1 := id]);
    var b6 := After(b5, Note(2, key));
    hide After;
    var s1, s2, s3 := [Start(0, id)], [Start(0, id), Accepted(0, key)], [Start(0, id), Accepted(0, key), Note(1, key)];
    var s4 := s3 + [Release(0)];
    var s5 := s4 + [Accepted(0, key)];
    var s6 := s5 + [Note(2, key)];
    assert s1[..0] == [] && s2[..1] == s1 && s3[..2] == s2 && s4[..3] == s3 && s5[..4] == s4 && s6[..5] == s5;
    assert Run(EMPTY, s1) == b1;
    assert Run(EMPTY, s2) == b2;
    assert Run(EMPTY, s3) == b3;
    assert Run(EMPTY, s4) == b4;
    assert Run(EMPTY, s5) == b5;
    assert Run(EMPTY, s6) == b6;
    assert s6 == [Start(0, id), Accepted(0, key), Note(1, key), Release(0), Accepted(0, key), Note(2, key)];
  }

  // ---- one payload per id --------------------------------------------------

  ghost predicate OnePayloadEach(b: Book) {
    forall p, q :: p in b.byPayload && q in b.byPayload && b.byPayload[p] == b.byPayload[q] ==> p == q
  }

  /** The id was bound to a payload that still maps to it. */
  predicate Spent(b: Book, id: Id) { id in b.byPayload.Values }

  /** No id has two payloads, and none that waits is spent. */
  ghost predicate Clean(b: Book) {
    OnePayloadEach(b) && forall h :: h in b.waiting ==> !Spent(b, h.id)
  }

  /** The step queues a spent id again: it was bound, then released, and is held once more. */
  predicate ReholdsSpent(b: Book, s: Step) {
    s.Accepted? && s.entry in b.ids &&
      var id := b.ids[s.entry];
      id !in b.bound && id !in Ids(b.waiting) && Spent(b, id)
  }

  lemma {:induction false} NoteKeepsClean(b: Book, payload: Payload, key: Key)
    requires BookOk(b) && Clean(b)
    ensures Clean(Noted(b, payload, key))
  {
    hide Remove, Oldest;
    OldestWaits(b.waiting, key);
    if Oldest(b.waiting, key).Some? {
      var id := Oldest(b.waiting, key).value;
      RemoveMembers(b.waiting, id);
      var after := Noted(b, payload, key);
      forall h | h in after.waiting ensures !Spent(after, h.id) {
        assert h in b.waiting && h.id != id;
        assert forall p :: p in after.byPayload && p != payload ==> p in b.byPayload;
      }
    }
  }

  lemma {:induction false} DropKeepsClean(b: Book, id: Id)
    requires BookOk(b) && Clean(b)
    ensures Clean(Dropped(b, id))
  {
    hide Remove;
    RemoveMembers(b.waiting, id);
  }

  /** From a clean book, the one step that spoils it is queueing a spent id again. */
  lemma {:induction false} CleanStep(b: Book, s: Step)
    requires BookOk(b) && Clean(b)
    ensures Clean(After(b, s)) <==> !ReholdsSpent(b, s)
  {
    hide Remove, Oldest;
    match s
    case Start(_, _) =>
    case Accepted(entry, key) =>
      if ReholdsSpent(b, s) {
        assert Hold(b.ids[entry], key) in After(b, s).waiting;
      }
    case Release(entry) =>
      if entry in b.ids {
        DropKeepsClean(b, b.ids[entry]);
      }
    case Note(payload, key) =>
      NoteKeepsClean(b, payload, key);
  }

  /** The book is clean at every point of the run. */
  ghost predicate CleanThroughout(steps: seq<Step>) {
    forall i :: 0 <= i <= |steps| ==> Clean(Run(EMPTY, steps[..i]))
  }

  /** No step of the run queues a spent id again. */
  ghost predicate NeverReholds(steps: seq<Step>) {
    forall i :: 0 <= i < |steps| ==> !ReholdsSpent(Run(EMPTY, steps[..i]), steps[i])
  }

  /**
   * The condition at hold time: through a whole run no id has two payloads and no spent
   * id waits, exactly when no step of the run queues a spent id again.
   */
  lemma {:induction false} CleanRun(steps: seq<Step>)
    ensures CleanThroughout(steps) <==> NeverReholds(steps)
  {
    hide Clean, ReholdsSpent, After, BookOk, CleanThroughout, NeverReholds;
    if steps == [] {
      CleanAtStart();
    } else {
      var n := |steps| - 1;
      var init := steps[..n];
      CleanRun(init);
      CleanPrefixes(steps, init, n);
      RunKeepsOk(init);
      if Clean(Run(EMPTY, init)) {
        CleanStep(Run(EMPTY, init), steps[n]);
      }
    }
  }

  lemma {:induction false} CleanAtStart()
    ensures CleanThroughout([]) && NeverReholds([])
  {
    hide Clean;
    EmptyClean();
    var none: seq<Step> := [];
    assert none[..0] == none;
  }

  /** The two sides of CleanRun, one step longer. */
  lemma {:induction false} CleanPrefixes(steps: seq<Step>, init: seq<Step>, n: nat)
    requires |steps| == n + 1 && init == steps[..n]
    ensures CleanThroughout(steps) <==> CleanThroughout(init) && Clean(Run(EMPTY, steps))
    ensures NeverReholds(steps) <==> NeverReholds(init) && !ReholdsSpent(Run(EMPTY, init), steps[n])
    ensures CleanThroughout(init) ==> Clean(Run(EMPTY, init))
  {
    hide Clean, ReholdsSpent, Run;
    assert forall i :: 0 <= i <= n ==> steps[..i] == init[..i];
    assert steps[..n + 1] == steps && init[..n] == init;
  }

  lemma {:induction false} EmptyClean()
    ensures Clean(EMPTY)
  {
  }

  /**
   * The step binds a spent id: the oldest waiting id of the key is one that another
   * payload still maps to.
   */
  predicate BindsSpent(b: Book, s: Step) {
    s.Note? && Oldest(b.waiting, s.key).Some? &&
      var id := Oldest(b.waiting, s.key).value;
      exists p :: p in b.byPayload && p != s.payload && b.byPayload[p] == id
  }

  /** From a book where no id has two payloads, the one step that spoils this is binding a spent id. */
  lemma {:induction false} OnePayloadStep(b: Book, s: Step)
    requires OnePayloadEach(b)
    ensures OnePayloadEach(After(b, s)) <==> !BindsSpent(b, s)
  {
    hide Remove, Oldest;
    if BindsSpent(b, s) {
      var p :| p in b.byPayload && p != s.payload && b.byPayload[p] == Oldest(b.waiting, s.key).value;
      var after := After(b, s);
      assert after.byPayload[p] == after.byPayload[s.payload];
    }
  }

  /** No id has two payloads at any point of the run. */
  ghost predicate OnePayloadThroughout(steps: seq<Step>) {
    forall i :: 0 <= i <= |steps| ==> OnePayloadEach(Run(EMPTY, steps[..i]))
  }

  /** No step of the run binds a spent id. */
  ghost predicate NeverBindsSpent(steps: seq<Step>) {
    forall i :: 0 <= i < |steps| ==> !BindsSpent(Run(EMPTY, steps[..i]), steps[i])
  }

  /**
   * The exact condition: no id ever has two payloads, at any prefix of a run, if and only
   * if no step of the run binds a spent id.
   */
  lemma {:induction false} OnePayloadRun(steps: seq<Step>)
    ensures OnePayloadThroughout(steps) <==> NeverBindsSpent(steps)
  {
    hide OnePayloadEach, BindsSpent, After, OnePayloadThroughout, NeverBindsSpent;
    if steps == [] {
      OnePayloadAtStart();
    } else {
      var n := |steps| - 1;
      var init := steps[..n];
      OnePayloadRun(init);
      OnePayloadPrefixes(steps, init, n);
      if OnePayloadEach(Run(EMPTY, init)) {
        OnePayloadStep(Run(EMPTY, init), steps[n]);
      }
    }
  }

  lemma {:induction false} OnePayloadAtStart()
    ensures OnePayloadThroughout([]) && NeverBindsSpent([])
  {
    var none: seq<Step> := [];
    assert none[..0] == none;
  }

  /** The two sides of OnePayloadRun, one step longer. */
  lemma {:induction false} OnePayloadPrefixes(steps: seq<Step>, init: seq<Step>, n: nat)
    requires |steps| == n + 1 && init == steps[..n]
    ensures OnePayloadThroughout(steps) <==> OnePayloadThroughout(init) && OnePayloadEach(Run(EMPTY, steps))
    ensures NeverBindsSpent(steps) <==> NeverBindsSpent(init) && !BindsSpent(Run(EMPTY, init), steps[n])
    ensures OnePayloadThroughout(init) ==> OnePayloadEach(Run(EMPTY, init))
  {
    hide OnePayloadEach, BindsSpent, Run;
    assert forall i :: 0 <= i <= n ==> steps[..i] == init[..i];
    assert steps[..n + 1] == steps && init[..n] == init;
  }

  // ---- a spent id that waits again is bound again --------------------------

  /** Enough notes of one key to reach a hold, each with the next payload. */
  function Notes(key: Key, first: Payload, count: nat): seq<Step>
    decreases count
  {
    if count == 0 then [] else [Note(first, key)] + Notes(key, first + 1, count - 1)
  }

  function RunOn(b: Book, steps: seq<Step>): Book
    decreases |steps|
  {
    if steps == [] then b else RunOn(After(b, steps[0]), steps[1..])
  }

  lemma {:induction false} RunThenRunOn(steps: seq<Step>, more: seq<Step>)
    ensures Run(EMPTY, steps + more) == RunOn(Run(EMPTY, steps), more)
    decreases |more|
  {
    hide After;
    if more == [] {
      assert steps + more == steps;
    } else {
      RunThenRunOn(steps + [more[0]], more[1..]);
      assert (steps + [more[0]])[..|steps|] == steps;
      assert (steps + [more[0]]) + more[1..] == steps + more;
    }
  }

  /** Above every payload in the map. */
  lemma {:induction false} FreshPayload(m: map<Payload, Id>) returns (above: Payload)
    ensures forall p :: p in m ==> p < above
    decreases |m|
  {
    above := 0;
    if m != map[] {
      var p :| p in m;
      var rest := m - {p};
      assert |rest| < |m| by {
        assert m.Keys == rest.Keys + {p};
      }
      above := FreshPayload(rest);
      above := if above <= p then p + 1 else above;
      assert forall q :: q in m ==> q == p || q in rest;
    }
  }

  /** Notes of fresh payloads bind the waiting holds of a key in turn, up to the one at `at`. */
  lemma {:induction false} NotesReach(b: Book, at: nat, first: Payload) returns (count: nat)
    requires BookOk(b) && at < |b.waiting| && forall p :: p in b.byPayload ==> p < first
    ensures count > 0
    ensures var after := RunOn(b, Notes(b.waiting[at].key, first, count));
            && (forall p :: p in b.byPayload ==> p in after.byPayload && after.byPayload[p] == b.byPayload[p])
            && first + (count - 1) in after.byPayload && after.byPayload[first + (count - 1)] == b.waiting[at].id
    decreases |b.waiting|
  {
    hide Remove, Oldest, BookOk;
    var target := b.waiting[at];
    var key := target.key;
    assert key in Keys(b.waiting);
    var k := NoteBindsOldest(b, first, key);
    var next := Noted(b, first, key);
    StepKeepsOk(b, Note(first, key));
    if k == at {
      count := 1;
      assert Notes(key, first, 1) == [Note(first, key)];
    } else {
      var at' := if k < at then at - 1 else at;
      assert next.waiting[at'] == target;
      var rest := NotesReach(next, at', first + 1);
      count := rest + 1;
      var steps := Notes(key, first, count);
      assert steps[0] == Note(first, key) && steps[1..] == Notes(key, first + 1, rest);
    }
  }

  /** Once a spent id waits again, some continuation of the run gives it a second payload. */
  lemma {:induction false} SpentHoldBindsTwice(steps: seq<Step>, h: Hold) returns (more: seq<Step>)
    requires h in Run(EMPTY, steps).waiting && Spent(Run(EMPTY, steps), h.id)
    ensures NoReholds(Run(EMPTY, steps), more)
    ensures !OnePayloadEach(Run(EMPTY, steps + more))
  {
    hide Run, RunOn, BookOk;
    var b := Run(EMPTY, steps);
    RunKeepsOk(steps);
    var at :| 0 <= at < |b.waiting| && b.waiting[at] == h;
    var p :| p in b.byPayload && b.byPayload[p] == h.id;
    var first := FreshPayload(b.byPayload);
    var count := NotesReach(b, at, first);
    more := Notes(h.key, first, count);
    NotesAreNoReholds(b, h.key, first, count);
    RunThenRunOn(steps, more);
    var after := Run(EMPTY, steps + more);
    assert after.byPayload[p] == after.byPayload[first + (count - 1)] && p < first;
  }

  predicate NoReholds(b: Book, steps: seq<Step>)
    decreases |steps|
  {
    steps == [] || (!ReholdsSpent(b, steps[0]) && NoReholds(After(b, steps[0]), steps[1..]))
  }

  lemma {:induction false} CleanGoesOn(b: Book, more: seq<Step>)
    requires BookOk(b) && Clean(b) && NoReholds(b, more)
    ensures Clean(RunOn(b, more))
    decreases |more|
  {
    hide BookOk, Clean, ReholdsSpent, After;
    if more != [] {
      StepKeepsOk(b, more[0]);
      CleanStep(b, more[0]);
      CleanGoesOn(After(b, more[0]), more[1..]);
    }
  }

  lemma {:induction false} NotesAreNoReholds(b: Book, key: Key, first: Payload, count: nat)
    ensures NoReholds(b, Notes(key, first, count))
    decreases count
  {
    hide After;
    if count != 0 {
      NotesAreNoReholds(After(b, Note(first, key)), key, first + 1, count - 1);
      assert Notes(key, first, count)[1..] == Notes(key, first + 1, count - 1);
    }
  }

  /** Further steps give some id two payloads without queueing a spent id. */
  ghost predicate Spoils(b: Book, more: seq<Step>) {
    NoReholds(b, more) && !OnePayloadEach(RunOn(b, more))
  }

  /** Clean is the right condition: the books that no such steps can spoil are the clean ones. */
  lemma {:induction false} CleanExactly(steps: seq<Step>)
    ensures Clean(Run(EMPTY, steps)) <==> forall more :: !Spoils(Run(EMPTY, steps), more)
  {
    hide Run, BookOk, ReholdsSpent;
    var b := Run(EMPTY, steps);
    RunKeepsOk(steps);
    if Clean(b) {
      forall more ensures !Spoils(b, more) {
        if NoReholds(b, more) {
          CleanGoesOn(b, more);
        }
      }
    } else if !OnePayloadEach(b) {
      assert Spoils(b, []);
    } else {
      var h :| h in b.waiting && Spent(b, h.id);
      var more := SpentHoldBindsTwice(steps, h);
      RunThenRunOn(steps, more);
      assert Spoils(b, more);
    }
  }

  // ---- first come, first bound ---------------------------------------------

  /** First occurs before second in the list. */
  ghost predicate Precedes(w: seq<Hold>, first: Hold, second: Hold) {
    exists i, j :: 0 <= i < j < |w| && w[i] == first && w[j] == second
  }

  /** While a hold waits, no later hold of the same key is bound, whatever else happens. */
  lemma {:induction false} FirstComeFirstBound(b: Book, s: Step, first: Hold, second: Hold)
    requires BookOk(b) && Precedes(b.waiting, first, second) && first.key == second.key
    ensures !Binds(b, s, second.id)
    ensures var w := After(b, s).waiting;
            first in w && second in w ==> Precedes(w, first, second)
  {
    hide BookOk, Distinct, Remove, Oldest;
    var w := b.waiting;
    var i, j :| 0 <= i < j < |w| && w[i] == first && w[j] == second;
    WaitsOnce(b);
    if s.Note? && Oldest(w, s.key).Some? {
      var at := OldestAt(w, s.key);
      WaitsApart(w, i, j);
      if at != j {
        WaitsApart(w, if at < j then at else j, if at < j then j else at);
      }
      RemoveAt(w, at);
      CutKeepsOrder(w, at, i, j);
    } else if s.Release? && s.entry in b.ids {
      RemovedAt(w, b.ids[s.entry]);
      if k :| 0 <= k < |w| && w[k].id == b.ids[s.entry] {
        RemoveAt(w, k);
        CutKeepsOrder(w, k, i, j);
      }
    } else {
      assert After(b, s).waiting[i] == first && After(b, s).waiting[j] == second;
    }
  }

  lemma {:induction false} WaitsOnce(b: Book)
    requires BookOk(b)
    ensures Distinct(b.waiting)
  {
  }

  lemma {:induction false} WaitsApart(w: seq<Hold>, i: nat, j: nat)
    requires Distinct(w) && i < j < |w|
    ensures w[i].id != w[j].id
  {
  }

  lemma {:induction false} RemovedAt(w: seq<Hold>, id: Id)
    ensures (forall k :: 0 <= k < |w| ==> w[k].id != id) ==> Remove(w, id) == w
  {
    hide Remove;
    if forall k :: 0 <= k < |w| ==> w[k].id != id {
      RemoveAbsent(w, id);
    }
  }

  lemma {:induction false} CutKeepsOrder(w: seq<Hold>, at: nat, i: nat, j: nat)
    requires i < j < |w| && at < |w|
    ensures at != i && at != j ==> Precedes(Splice(w, at), w[i], w[j])
    ensures Distinct(w) ==> w[at] !in Splice(w, at)
  {
    if at != i && at != j {
      var i', j' := if i < at then i else i - 1, if j < at then j else j - 1;
      assert Splice(w, at)[i'] == w[i] && Splice(w, at)[j'] == w[j];
    }
  }
}
