/** The fan-in side of main.go: the collector receives one Repository per
    launched fetch and keeps the ones without an error. The channel is
    modelled as the sequence of messages in the order they arrive. */
module Collect {
  import opened Types

  /** The messages that carry no error, in the order they arrived. */
  function Successful(msgs: seq<Repository>): (ok: seq<Repository>)
    ensures |ok| <= |msgs|
    ensures forall r :: r in ok ==> r.error.None? && r in msgs
  {
    if msgs == [] then []
    else
      var last := msgs[|msgs| - 1];
      Successful(msgs[..|msgs| - 1]) + (if last.error.None? then [last] else [])
  }

  /** readRepositoriesFromChannel (main.go:65-77): receive exactly `length`
      messages and keep those whose error is nil, in order of arrival. The
      receive blocks until a message is there, so the caller must have at
      least `length` messages coming; a negative `length` receives nothing. */
  method ReadRepositoriesFromChannel(ch: seq<Repository>, length: int) returns (repositories: seq<Repository>)
    requires length <= |ch|
    ensures repositories == Successful(ch[..if length < 0 then 0 else length])
    ensures |repositories| <= if length < 0 then 0 else length
    ensures forall r :: r in repositories ==> r.error.None?
  {
    repositories := [];
    var i := 0;
    while i < length
      invariant 0 <= i <= if length < 0 then 0 else length
      invariant repositories == Successful(ch[..i])
    {
      var repo := ch[i];
      if repo.error.None? {
        repositories := repositories + [repo];
      }
      assert ch[..i + 1][..i] == ch[..i];
      i := i + 1;
    }
  }

  /** Filtering distributes over concatenation, so it keeps the arrival order:
      what survives of an earlier batch of messages comes before what survives
      of a later one. */
  lemma {:induction false} SuccessfulAppend(a: seq<Repository>, b: seq<Repository>)
    ensures Successful(a + b) == Successful(a) + Successful(b)
  {
    if b == [] {
      assert a + b == a;
    } else {
      var b' := b[..|b| - 1];
      assert (a + b)[..|a + b| - 1] == a + b';
      SuccessfulAppend(a, b');
    }
  }

  /** A message with an error leaves the collected result exactly as if it had
      never been sent. */
  lemma FailedMessageIgnored(a: seq<Repository>, failed: Repository, b: seq<Repository>)
    requires failed.error.Some?
    ensures Successful(a + [failed] + b) == Successful(a + b)
  {
    var none := Successful([failed]);
    assert none == [] by {
      assert [failed][..0] == [];
    }
    SuccessfulAppend(a, [failed]);
    var front := Successful(a + [failed]);
    assert front == Successful(a);
    SuccessfulAppend(a + [failed], b);
    SuccessfulAppend(a, b);
  }

  /** Up to order, the result holds every error-free message as often as it
      arrived and no failed message at all. */
  lemma {:induction false} SuccessfulMultiset(msgs: seq<Repository>)
    ensures forall r :: multiset(Successful(msgs))[r] == if r.error.None? then multiset(msgs)[r] else 0
  {
    if msgs != [] {
      var init, last := msgs[..|msgs| - 1], msgs[|msgs| - 1];
      assert msgs == init + [last];
      SuccessfulMultiset(init);
    }
  }
}
