/**
 The messaging side: a chat that records every send attempt and every message it received,
 and the delivery of a batch of posts oldest first.
 */
module Notifier {
  import opened Listing

  /** A message to the chat; its text formatting is not modelled. */
  datatype Message =
    /** A post announcement: title, content and link. */
    | Announcement(post: Post)
    /** The operator-facing report of an exception during scraping. */
    | ScraperError

  /**
   The destination chat. Whether the network accepts the n-th send attempt is outside the
   program; `accepts` stands for it.
   */
  class Chat {
    const accepts: nat -> bool
    /** Every message a send was attempted for, in order. */
    var attempted: seq<Message>
    /** The messages the chat received, in order. */
    var received: seq<Message>

    constructor (accepts: nat -> bool)
      ensures this.accepts == accepts && attempted == [] && received == []
    {
      this.accepts := accepts;
      attempted, received := [], [];
    }

    /** client.send_message: one attempt; ok is false when it raised. */
    method Send(m: Message) returns (ok: bool)
      modifies this
      ensures ok == accepts(|old(attempted)|)
      ensures attempted == old(attempted) + [m]
      ensures received == if ok then old(received) + [m] else old(received)
    {
      ok := accepts(|attempted|);
      attempted := attempted + [m];
      if ok {
        received := received + [m];
      }
    }
  }

  function Reversed<T>(s: seq<T>): (r: seq<T>)
    ensures |r| == |s|
  {
    if s == [] then [] else Reversed(s[1..]) + [s[0]]
  }

  /** The k-th element of the reversal is the k-th from the end. */
  lemma {:induction false} ReversedAt<T>(s: seq<T>, k: nat)
    requires k < |s|
    ensures Reversed(s)[k] == s[|s| - 1 - k]
  {
    if k < |s| - 1 {
      ReversedAt(s[1..], k);
    }
  }

  /** One announcement per post, in the same order. */
  function Announce(ps: seq<Post>): (ms: seq<Message>)
    ensures |ms| == |ps|
  {
    if ps == [] then [] else [Announcement(ps[0])] + Announce(ps[1..])
  }

  lemma {:induction false} AnnounceAt(ps: seq<Post>, k: nat)
    requires k < |ps|
    ensures Announce(ps)[k] == Announcement(ps[k])
  {
    if k > 0 {
      AnnounceAt(ps[1..], k - 1);
    }
  }

  lemma {:induction false} AnnounceSnoc(ps: seq<Post>, p: Post)
    ensures Announce(ps + [p]) == Announce(ps) + [Announcement(p)]
  {
    if ps == [] {
      assert [p][1..] == [];
    } else {
      assert (ps + [p])[1..] == ps[1..] + [p];
      AnnounceSnoc(ps[1..], p);
    }
  }

  /** The messages among ms whose attempt, numbered from start, the network accepts. */
  function Accepted(ms: seq<Message>, accepts: nat -> bool, start: nat): seq<Message>
    decreases |ms|
  {
    if ms == [] then []
    else (if accepts(start) then [ms[0]] else []) + Accepted(ms[1..], accepts, start + 1)
  }

  lemma {:induction false} AcceptedSnoc(ms: seq<Message>, m: Message, accepts: nat -> bool, start: nat)
    ensures Accepted(ms + [m], accepts, start)
         == Accepted(ms, accepts, start) + (if accepts(start + |ms|) then [m] else [])
  {
    var last: seq<Message> := if accepts(start + |ms|) then [m] else [];
    if ms == [] {
      assert [m][1..] == [];
      assert Accepted([m], accepts, start) == last + Accepted([], accepts, start + 1);
    } else {
      var head: seq<Message> := if accepts(start) then [ms[0]] else [];
      assert (ms + [m])[0] == ms[0];
      assert (ms + [m])[1..] == ms[1..] + [m];
      assert Accepted(ms + [m], accepts, start) == head + Accepted(ms[1..] + [m], accepts, start + 1);
      AcceptedSnoc(ms[1..], m, accepts, start + 1);
      assert start + 1 + |ms[1..]| == start + |ms|;
      assert Accepted(ms, accepts, start) == head + Accepted(ms[1..], accepts, start + 1);
      assert head + (Accepted(ms[1..], accepts, start + 1) + last) == (head + Accepted(ms[1..], accepts, start + 1)) + last;
    }
  }

  lemma {:induction false} AcceptedFrom(ms: seq<Message>, accepts: nat -> bool, start: nat, m: Message) returns (k: nat)
    requires m in Accepted(ms, accepts, start)
    ensures k < |ms| && ms[k] == m && accepts(start + k)
  {
    if accepts(start) && ms[0] == m {
      k := 0;
    } else {
      var k' := AcceptedFrom(ms[1..], accepts, start + 1, m);
      k := k' + 1;
    }
  }

  lemma {:induction false} AcceptedKeeps(ms: seq<Message>, accepts: nat -> bool, start: nat, k: nat)
    requires k < |ms| && accepts(start + k)
    ensures ms[k] in Accepted(ms, accepts, start)
  {
    if k > 0 {
      AcceptedKeeps(ms[1..], accepts, start + 1, k - 1);
    }
  }

  /**
   A failed attempt costs only its own message: a message is received exactly when some attempt
   for it was accepted, whatever happened to the attempts before it.
   */
  lemma AcceptedMembers(ms: seq<Message>, accepts: nat -> bool, start: nat, m: Message)
    ensures m in Accepted(ms, accepts, start) <==> exists k :: 0 <= k < |ms| && ms[k] == m && accepts(start + k)
  {
    if m in Accepted(ms, accepts, start) {
      var k := AcceptedFrom(ms, accepts, start, m);
    }
    if exists k :: 0 <= k < |ms| && ms[k] == m && accepts(start + k) {
      var k :| 0 <= k < |ms| && ms[k] == m && accepts(start + k);
      AcceptedKeeps(ms, accepts, start, k);
    }
  }

  /** When the network accepts every attempt, every message is received, in order. */
  lemma {:induction false} AcceptedAll(ms: seq<Message>, accepts: nat -> bool, start: nat)
    requires forall k :: start <= k < start + |ms| ==> accepts(k)
    ensures Accepted(ms, accepts, start) == ms
  {
    if ms != [] {
      AcceptedAll(ms[1..], accepts, start + 1);
    }
  }

  /**
   send_posts_to_telegram: one attempt per post, newest batch element last (oldest first); a
   failed attempt is logged and the loop goes on.
   */
  method SendPosts(posts: seq<Post>, chat: Chat)
    modifies chat
    ensures chat.attempted == old(chat.attempted) + Announce(Reversed(posts))
    ensures chat.received == old(chat.received) + Accepted(Announce(Reversed(posts)), chat.accepts, |old(chat.attempted)|)
  {
    ghost var start := |chat.attempted|;
    ghost var attempted0, received0 := chat.attempted, chat.received;
    var i := |posts|;
    while i > 0
      invariant 0 <= i <= |posts|
      invariant chat.attempted == attempted0 + Announce(Reversed(posts[i..]))
      invariant chat.received == received0 + Accepted(Announce(Reversed(posts[i..])), chat.accepts, start)
    {
      i := i - 1;
      var m := Announcement(posts[i]);
      ghost var done := Announce(Reversed(posts[i + 1..]));
      ghost var accepted := Accepted(done, chat.accepts, start);
      ghost var mine: seq<Message> := if chat.accepts(start + |done|) then [m] else [];
      AnnounceFromHere(posts, i);
      AcceptedSnoc(done, m, chat.accepts, start);
      var ok := chat.Send(m);
      // a failed attempt is logged and the loop goes on with the next post
      assert attempted0 + done + [m] == attempted0 + (done + [m]);
      assert received0 + accepted + mine == received0 + (accepted + mine);
    }
    assert posts[0..] == posts;
  }

  /** Walking the batch from position i backwards announces post i after the posts behind it. */
  lemma AnnounceFromHere(posts: seq<Post>, i: nat)
    requires i < |posts|
    ensures Announce(Reversed(posts[i..])) == Announce(Reversed(posts[i + 1..])) + [Announcement(posts[i])]
  {
    assert posts[i..][1..] == posts[i + 1..];
    assert Reversed(posts[i..]) == Reversed(posts[i + 1..]) + [posts[i]];
    AnnounceSnoc(Reversed(posts[i + 1..]), posts[i]);
  }

  /**
   Delivery order: the k-th attempt of SendPosts announces the batch element k places from the
   end, so a newest-first batch is announced oldest first.
   */
  lemma DeliveryAttemptOrder(posts: seq<Post>, k: nat)
    requires k < |posts|
    ensures Announce(Reversed(posts))[k] == Announcement(posts[|posts| - 1 - k])
  {
    ReversedAt(posts, k);
    AnnounceAt(Reversed(posts), k);
  }
}
