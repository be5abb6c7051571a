/**
 * What each synchronous step of the spend book does (packages/cdp-spend-store/src/hold-client.js),
 * told by what waits, what is bound and in which order, and what runs of steps add up to.
 */
module SpendBookSteps {
  import opened Bytes
  import opened SpendBook
  import Text

  // ---- match keys ----------------------------------------------------------

  /** Amounts are printed in decimal digits, behind a minus sign when negative. */
  lemma {:induction false} DecimalSpelled(n: nat, i: nat)
    ensures |Decimal(n)| == |Text.Dec(n)|
    ensures i < |Text.Dec(n)| ==> Decimal(n)[i] as int == Text.Dec(n)[i]
    ensures n > 0 ==> Decimal(-(n as int)) == "-" + Decimal(n)
    decreases n
  {
    if n >= 10 {
      DecimalSpelled(n / 10, i);
    }
  }

  /** A match key is the four fields in order, the text ones in lower case, with bars between. */
  lemma {:induction false} MatchKeySpelled(lower: string -> string, e: Entry)
    ensures MatchKey(lower, e)
         == Decimal(e.amount) + "|" + lower(e.asset) + "|" + lower(e.network) + "|" + lower(e.payTo)
  {
    hide Decimal;
    var (a, b, c, d) := (Decimal(e.amount), lower(e.asset), lower(e.network), lower(e.payTo));
    ConcatAssoc(a + "|", b, "|" + (c + "|" + d));
    ConcatAssoc(a + "|" + b, "|", c + "|" + d);
    ConcatAssoc(a + "|" + b + "|", c, "|" + d);
    ConcatAssoc(a + "|" + b + "|" + c, "|", d);
    ConcatAssoc(b, "|", c + ("|" + d));
    ConcatAssoc(c, "|", d);
    ConcatAssoc(a, "|", b + ("|" + (c + ("|" + d))));
  }

  // ---- one step ------------------------------------------------------------

  /** An entry keeps its first request id over every run. */
  lemma {:induction false} IdForGood(b: Book, more: seq<Step>, entry: Obj)
    requires entry in b.ids
    ensures entry in RunOn(b, more).ids && RunOn(b, more).ids[entry] == b.ids[entry]
    decreases |more|
  {
    if more != [] {
      IdKept(b, more[0], entry);
      IdForGood(After(b, more[0]), more[1..], entry);
    }
  }

  lemma {:induction false} IdKept(b: Book, s: Step, entry: Obj)
    requires entry in b.ids
    ensures entry in After(b, s).ids && After(b, s).ids[entry] == b.ids[entry]
  {
    hide Remove, Oldest;
  }

  /** A new entry takes the generated id, and starting does nothing else. */
  lemma {:induction false} StartsExactly(b: Book, entry: Obj, generated: Id, other: Obj)
    ensures var after := After(b, Start(entry, generated));
            && after.waiting == b.waiting && after.bound == b.bound && after.byPayload == b.byPayload
            && entry in after.ids && (entry !in b.ids ==> after.ids[entry] == generated)
            && (other != entry ==>
                  (other in after.ids <==> other in b.ids) && (other in b.ids ==> after.ids[other] == b.ids[other]))
  {
  }

  /**
   * An accepted hold whose id neither waits nor is bound joins behind every waiting hold; any
   * other acceptance changes nothing.
   */
  lemma {:induction false} AcceptedJoinsLast(b: Book, entry: Obj, key: Key, earlier: Hold)
    ensures var after := After(b, Accepted(entry, key));
            && after.ids == b.ids && after.bound == b.bound && after.byPayload == b.byPayload
            && (if entry in b.ids && b.ids[entry] !in b.bound && (forall h :: h in b.waiting ==> h.id != b.ids[entry])
                then
                  var joined := Hold(b.ids[entry], key);
                  && joined in after.waiting && |after.waiting| == |b.waiting| + 1 && b.waiting <= after.waiting
                  && (earlier in b.waiting ==> Precedes(after.waiting, earlier, joined))
                else after.waiting == b.waiting)
  {
    if entry in b.ids && b.ids[entry] !in b.bound && (forall h :: h in b.waiting ==> h.id != b.ids[entry]) {
      var joined := Hold(b.ids[entry], key);
      var w := b.waiting + [joined];
      assert w[|b.waiting|] == joined;
      if earlier in b.waiting {
        var i :| 0 <= i < |b.waiting| && b.waiting[i] == earlier;
        assert w[i] == earlier;
      }
    }
  }

  /** A release takes away its own id, waiting or bound, and nothing else; what stays keeps its order. */
  lemma {:induction false} ReleasesExactly(b: Book, entry: Obj, first: Hold, second: Hold)
    requires BookOk(b)
    ensures var after := After(b, Release(entry));
            && after.ids == b.ids && after.byPayload == b.byPayload
            && (entry !in b.ids ==> after == b)
            && (entry in b.ids ==>
                  && after.bound == b.bound - {b.ids[entry]}
                  && (forall h :: h in after.waiting <==> h in b.waiting && h.id != b.ids[entry])
                  && (Precedes(b.waiting, first, second) && first.id != b.ids[entry] && second.id != b.ids[entry] ==>
                        Precedes(after.waiting, first, second)))
  {
    hide Remove, Distinct;
    if entry in b.ids {
      WaitsOnce(b);
      RemoveMembers(b.waiting, b.ids[entry]);
      if Precedes(b.waiting, first, second) && first.id != b.ids[entry] && second.id != b.ids[entry] {
        RemoveKeepsOrder(b.waiting, b.ids[entry], first, second);
      }
    }
  }

  lemma {:induction false} RemoveKeepsOrder(w: seq<Hold>, id: Id, first: Hold, second: Hold)
    requires Distinct(w) && Precedes(w, first, second) && first.id != id && second.id != id
    ensures Precedes(Remove(w, id), first, second)
  {
    hide Remove, Distinct;
    var i, j :| 0 <= i < j < |w| && w[i] == first && w[j] == second;
    RemovedAt(w, id);
    if k :| 0 <= k < |w| && w[k].id == id {
      RemoveAt(w, k);
      CutKeepsOrder(w, k, i, j);
    }
  }

  // ---- runs of notes -------------------------------------------------------

  /** One note takes the head of its key's queue. */
  lemma {:induction false} NoteTakesHead(b: Book, payload: Payload, key: Key)
    requires BookOk(b) && Queue(b.waiting, key) != []
    ensures var after := After(b, Note(payload, key));
            && BookOk(after) && Queue(after.waiting, key) == Queue(b.waiting, key)[1..]
            && after.byPayload == b.byPayload[payload := Queue(b.waiting, key)[0]]
            && after.bound == b.bound + {Queue(b.waiting, key)[0]}
  {
    hide Remove, Oldest, Queue, Distinct, Without;
    StepKeepsOk(b, Note(payload, key));
    OldestHeadsQueue(b.waiting, key);
    WaitsOnce(b);
    QueueRemove(b.waiting, Queue(b.waiting, key)[0], key);
    WithoutHead(Queue(b.waiting, key));
  }

  /** Payloads of one key are bound to its waiting holds one by one, in the order the holds arrived. */
  lemma {:induction false} NotesBindInOrder(b: Book, key: Key, first: Payload, count: nat)
    requires BookOk(b) && count <= |Queue(b.waiting, key)|
    ensures var (queue, after) := (Queue(b.waiting, key), RunOn(b, Notes(key, first, count)));
            && Queue(after.waiting, key) == queue[count..]
            && (forall p :: first <= p < first + count ==>
                  p in after.byPayload && after.byPayload[p] == queue[p - first])
            && (forall p :: p in b.byPayload && !(first <= p < first + count) ==>
                  p in after.byPayload && after.byPayload[p] == b.byPayload[p])
    decreases count
  {
    hide BookOk, After, Queue;
    if count == 0 {
      assert Notes(key, first, 0) == [];
    } else {
      var queue, next := Queue(b.waiting, key), After(b, Note(first, key));
      NoteTakesHead(b, first, key);
      NotesBindInOrder(next, key, first + 1, count - 1);
      assert Notes(key, first, count) == [Note(first, key)] + Notes(key, first + 1, count - 1);
      assert ([Note(first, key)] + Notes(key, first + 1, count - 1))[1..] == Notes(key, first + 1, count - 1);
    }
  }

  /** A note of a key nobody waits under changes nothing. */
  lemma {:induction false} NoteWithoutHold(b: Book, payload: Payload, key: Key)
    requires forall h :: h in b.waiting ==> h.key != key
    ensures After(b, Note(payload, key)) == b
  {
    hide Oldest, Remove;
    OldestWaits(b.waiting, key);
  }
}
