/**
  The response queue of the command manager, as a sequence of entries in
  ascending send-time order, and the scans the manager runs over it.
 */
module Queues {
  import opened Frames
  import opened Request

  /** A request in flight, with the time it was transmitted. */
  datatype Entry = Entry(sent: real, req: RequestHandler)

  /** The handlers of `es`, in the same order. */
  function Requests(es: seq<Entry>): (rs: seq<RequestHandler>)
    ensures |rs| == |es|
    ensures forall i :: 0 <= i < |es| ==> rs[i] == es[i].req
  {
    seq(|es|, i requires 0 <= i < |es| => es[i].req)
  }

  lemma RequestsSplit(es: seq<Entry>, k: nat)
    requires k <= |es|
    ensures Requests(es) == Requests(es[..k]) + Requests(es[k..])
  {
  }

  lemma RequestsAppend(es: seq<Entry>, e: Entry)
    ensures Requests(es + [e]) == Requests(es) + [e.req]
  {
  }

  /** The order a priority queue keyed by send time hands entries out in. */
  ghost predicate SentInOrder(es: seq<Entry>) {
    forall i, j :: 0 <= i < j < |es| ==> es[i].sent <= es[j].sent
  }

  /** No handler is outstanding twice. */
  ghost predicate Exclusive(hs: seq<RequestHandler>) {
    forall h :: h in hs ==> multiset(hs)[h] <= 1
  }

  /** Every entry of `es` was sent no later than `now`. */
  ghost predicate SentBy(es: seq<Entry>, now: real) {
    forall i :: 0 <= i < |es| ==> es[i].sent <= now
  }

  lemma SentBySuffix(es: seq<Entry>, k: nat, now: real)
    requires SentBy(es, now) && k <= |es|
    ensures SentBy(es[k..], now)
  {
    forall i | 0 <= i < |es| - k
      ensures es[k..][i].sent <= now
    {
      assert es[k..][i] == es[k + i];
    }
  }

  // ---------------------------------------------------------------------
  // Correlation
  // ---------------------------------------------------------------------

  /** Position of the oldest entry that owns the frame (code, ts), or |es| when none does. */
  function FirstMatch(es: seq<Entry>, code: byte, ts: int): (k: nat)
    ensures k <= |es|
    ensures forall i :: 0 <= i < k ==> !es[i].req.OwnResponse(code, ts)
    ensures k < |es| ==> es[k].req.OwnResponse(code, ts)
  {
    if es == [] then 0
    else if es[0].req.OwnResponse(code, ts) then 0
    else 1 + FirstMatch(es[1..], code, ts)
  }

  /** FirstMatch is the least position whose entry owns the frame. */
  lemma FirstMatchAt(es: seq<Entry>, k: nat, code: byte, ts: int)
    requires k < |es| && es[k].req.OwnResponse(code, ts)
    requires forall j :: 0 <= j < k ==> !es[j].req.OwnResponse(code, ts)
    ensures FirstMatch(es, code, ts) == k
  {
  }

  /**
    Moving the `k` oldest entries to the tail of the request queue keeps
    the outstanding requests, and their order, as they were.
   */
  lemma MovePrefixKeepsPending(rq: seq<RequestHandler>, es: seq<Entry>, k: nat)
    requires k <= |es|
    ensures (rq + Requests(es[..k])) + Requests(es[k..]) == rq + Requests(es)
  {
    RequestsSplit(es, k);
  }

  /**
    Re-queueing the entries before the match at `k` and removing the
    match leaves every outstanding request but the matched one.
   */
  lemma MatchRemovesOnlyMatched(rq: seq<RequestHandler>, es: seq<Entry>, k: nat)
    requires k < |es|
    ensures multiset((rq + Requests(es[..k])) + Requests(es[k + 1..])) + multiset{es[k].req}
         == multiset(rq + Requests(es))
  {
    var front := rq + Requests(es[..k]);
    var back := Requests(es[k + 1..]);
    assert Requests(es) == Requests(es[..k]) + [es[k].req] + back by {
      assert |Requests(es)| == |Requests(es[..k]) + [es[k].req] + back|;
      forall i | 0 <= i < |es|
        ensures Requests(es)[i] == (Requests(es[..k]) + [es[k].req] + back)[i]
      {
        if i < k {
        } else if i == k {
        } else {
          assert es[k + 1..][i - k - 1] == es[i];
        }
      }
    }
    assert rq + Requests(es) == front + [es[k].req] + back;
    MultisetMiddle(front, es[k].req, back);
  }

  lemma MultisetMiddle<T>(front: seq<T>, x: T, back: seq<T>)
    ensures multiset(front + back) + multiset{x} == multiset(front + [x] + back)
  {
    assert multiset(front + [x] + back) == multiset(front) + multiset([x]) + multiset(back);
    assert multiset(front + back) == multiset(front) + multiset(back);
  }

  lemma ExclusiveShrinks(a: seq<RequestHandler>, b: seq<RequestHandler>)
    requires Exclusive(b) && multiset(a) <= multiset(b)
    ensures Exclusive(a)
  {
    forall h | h in a
      ensures multiset(a)[h] <= 1
    {
      assert multiset(a)[h] <= multiset(b)[h];
      assert h in multiset(b);
    }
  }

  lemma SuffixInOrder(es: seq<Entry>, k: nat)
    requires SentInOrder(es) && k <= |es|
    ensures SentInOrder(es[k..])
  {
    forall i, j | 0 <= i < j < |es| - k
      ensures es[k..][i].sent <= es[k..][j].sent
    {
      assert es[k..][i] == es[k + i] && es[k..][j] == es[k + j];
    }
  }

  // ---------------------------------------------------------------------
  // Timeout scan
  // ---------------------------------------------------------------------

  /** An entry waits too long when more than `timeout` has passed since it was sent. */
  predicate Expired(e: Entry, now: real, timeout: real) {
    now - e.sent > timeout
  }

  /** Length of the longest run of expired entries at the old end of `es`. */
  function ExpiredPrefix(es: seq<Entry>, now: real, timeout: real): (k: nat)
    ensures k <= |es|
    ensures forall i :: 0 <= i < k ==> Expired(es[i], now, timeout)
    ensures k < |es| ==> !Expired(es[k], now, timeout)
  {
    if es == [] then 0
    else if Expired(es[0], now, timeout) then 1 + ExpiredPrefix(es[1..], now, timeout)
    else 0
  }

  /**
    In a queue kept in send-time order, the entries the scan leaves behind
    are all within the timeout window, so stopping at the first one that
    is young enough misses nothing.
   */
  lemma YoungerEntriesWithinWindow(es: seq<Entry>, now: real, timeout: real)
    requires SentInOrder(es)
    ensures forall j :: ExpiredPrefix(es, now, timeout) <= j < |es| ==> !Expired(es[j], now, timeout)
  {
    var k := ExpiredPrefix(es, now, timeout);
    forall j | k <= j < |es|
      ensures !Expired(es[j], now, timeout)
    {
      assert es[k].sent <= es[j].sent;
    }
  }

  /** How the scan as written ends: done after moving `moved` entries, or waiting forever. */
  datatype ScanOutcome = ScanDone(moved: nat) | ScanBlocked

  /**
    The timeout scan as written: each round takes the oldest entry with
    `get()`, which waits as long as the queue is empty, and the loop goes
    on until it meets an entry within the window.
   */
  function ScanAsWritten(es: seq<Entry>, now: real, timeout: real): ScanOutcome {
    if es == [] then ScanBlocked
    else if Expired(es[0], now, timeout) then
      match ScanAsWritten(es[1..], now, timeout)
      case ScanDone(k) => ScanDone(k + 1)
      case ScanBlocked => ScanBlocked
    else ScanDone(0)
  }

  /**
    As written, the scan waits forever exactly when every entry has
    expired, the empty queue included; otherwise it moves the expired
    prefix, as the corrected scan does.
   */
  lemma {:induction false} ScanAsWrittenBlocksWhenAllExpired(es: seq<Entry>, now: real, timeout: real)
    ensures ScanAsWritten(es, now, timeout) == ScanBlocked <==> ExpiredPrefix(es, now, timeout) == |es|
    ensures ExpiredPrefix(es, now, timeout) < |es| ==>
      ScanAsWritten(es, now, timeout) == ScanDone(ExpiredPrefix(es, now, timeout))
  {
    if es != [] && Expired(es[0], now, timeout) {
      ScanAsWrittenBlocksWhenAllExpired(es[1..], now, timeout);
    }
  }

  /**
    One request sent at time 0 with a timeout of 0.2, scanned at time 1:
    as written the loop thread waits forever instead of resending it.
   */
  lemma OneExpiredRequestBlocks(h: RequestHandler)
    ensures ScanAsWritten([Entry(0.0, h)], 1.0, 0.2) == ScanBlocked
    ensures ExpiredPrefix([Entry(0.0, h)], 1.0, 0.2) == 1
  {
    assert [Entry(0.0, h)][1..] == [];
  }
}
