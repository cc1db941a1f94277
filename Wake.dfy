/**
  The wake channel: the loopback pipe that interrupts the event loop's
  wait. Each write is modelled as one discrete marker.
 */
module Wake {

  /** Written once for every request put on the request queue. */
  const NewMarker: string := "NEW"
  /** Written by `stop`. */
  const StopMarker: string := "STOP"

  /** `k` new-work markers in a row. */
  function NewMarkers(k: nat): (w: seq<string>)
    ensures |w| == k
    ensures forall i :: 0 <= i < k ==> w[i] == NewMarker
  {
    if k == 0 then [] else NewMarkers(k - 1) + [NewMarker]
  }

  /** The number of new-work markers waiting in `w`. */
  function CountNew(w: seq<string>): nat {
    if w == [] then 0 else (if w[0] == NewMarker then 1 else 0) + CountNew(w[1..])
  }

  lemma {:induction false} CountNewAppend(a: seq<string>, b: seq<string>)
    ensures CountNew(a + b) == CountNew(a) + CountNew(b)
  {
    if a != [] {
      assert (a + b)[0] == a[0];
      assert (a + b)[1..] == a[1..] + b;
      CountNewAppend(a[1..], b);
    } else {
      assert a + b == b;
    }
  }

  lemma {:induction false} CountNewMarkers(k: nat)
    ensures CountNew(NewMarkers(k)) == k
  {
    if k > 0 {
      CountNewMarkers(k - 1);
      CountNewAppend(NewMarkers(k - 1), [NewMarker]);
    }
  }

  /** Appending `k` new-work markers adds exactly `k` to the count. */
  lemma CountAfterNewMarkers(w: seq<string>, k: nat)
    ensures CountNew(w + NewMarkers(k)) == CountNew(w) + k
  {
    CountNewAppend(w, NewMarkers(k));
    CountNewMarkers(k);
  }
}
