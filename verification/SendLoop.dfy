/**
 * The parts of `_rover_send_loop` in src/caster.py between its suspension points, on the objects. Taking a chunk is
 * `ByteQueue.TryGet`; here are one turn of the wait loop and the counting of a finished write.
 */
module SendLoop {
  import opened ByteStrings
  import opened Tiers
  import opened Hub
  import Delivery

  /** One turn of the wait loop: pay, or ask how long to sleep; it does to the bucket what a `Pay` step does. */
  method PayTurn(bucket: TokenBucket, n: nat, now: real, next: real) returns (ok: bool, sleep: real)
    modifies bucket
    ensures ok == ConsumeAt(old(bucket.View()), n, now).1
    ensures bucket.View() == if ok then ConsumeAt(old(bucket.View()), n, now).0
                             else AskAt(ConsumeAt(old(bucket.View()), n, now).0, next)
    ensures !ok ==> sleep == Max(WaitTime(ConsumeAt(old(bucket.View()), n, now).0, n, next), 0.001)
  {
    sleep := 0.0;
    ok := bucket.Consume(n, now);
    if !ok {
      var wait := bucket.TimeToAvailable(n, next);
      sleep := Max(wait, 0.001);
    }
  }

  /** The transition system pays as the loop does. */
  lemma PayAgrees(s: Delivery.Session, b: Bucket, now: real, next: real)
    requires s.phase.Holding? && s.bucket == Some(b)
    ensures var n := |s.phase.chunk|;
      var t := Delivery.PayFor(s, now, next);
      && (t.phase.Paid? <==> ConsumeAt(b, n, now).1)
      && t.bucket == Some(if t.phase.Paid? then ConsumeAt(b, n, now).0 else AskAt(ConsumeAt(b, n, now).0, next))
  {
  }

  /** After a write: the session and the hub count its bytes. */
  method CountSent(hub: MountpointHub, session: RoverSession, n: nat)
    modifies session`sentBytes, hub`txBytesTotal
    ensures session.sentBytes == old(session.sentBytes) + n && hub.txBytesTotal == old(hub.txBytesTotal) + n
  {
    session.sentBytes := session.sentBytes + n;
    hub.RecordSentBytes(n);
  }
}
