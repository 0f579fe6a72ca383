/**
 The C++ gateway's link to the worker (worker.cpp): calls take turns under a mutex, and
 each reads the next reply from the one connection there is.  No reply is compared with the
 request it is for, and the connection is never opened again.
 */
module CppLink {
  import opened Wrappers
  import opened Framing

  /** What one call makes of the bytes that are waiting. */
  function Result(s: Bytes): Option<Bytes>
  {
    if CppAccepts(s) then Some(s[PREFIX..PREFIX + HeaderLength(s)]) else None
  }

  /** What n calls, one after the other, read. */
  function Received(s: Bytes, n: nat): seq<Option<Bytes>>
    decreases n
  {
    if n == 0 then [] else [Result(s)] + Received(CppRest(s), n - 1)
  }

  ghost predicate Sendable(replies: seq<Bytes>)
  {
    forall r <- replies :: PREFIX + |r| < 0x1_0000_0000
  }

  /** The worker's replies in the order of the requests, each a header alone. */
  function Stream(replies: seq<Bytes>): Bytes
    requires Sendable(replies)
  {
    if replies == [] then [] else assert replies[0] in replies; Pack(replies[0], []) + Stream(replies[1..])
  }

  lemma FirstReply(reply: Bytes, rest: Bytes)
    requires PREFIX + |reply| < 0x1_0000_0000
    ensures var s := Pack(reply, []) + rest;
            if |reply| <= MAX_HEADER then Result(s) == Some(reply) && CppRest(s) == rest
            else Result(s) == None && CppRest(s) == reply + rest
  {
    var f := Pack(reply, []);
    var s := f + rest;
    PackLengths(reply, []);
    assert s[..4] == f[..4] && s[4..8] == f[4..8];
    assert s[PREFIX..PREFIX + |reply|] == f[PREFIX..PREFIX + |reply|] == reply;
    assert s[PREFIX..] == reply + rest;
  }

  /** Each call got the reply to its own request. */
  function Own(replies: seq<Bytes>): seq<Option<Bytes>>
  {
    if replies == [] then [] else [Some(replies[0])] + Own(replies[1..])
  }

  /** The first reply is read by the first call, or refused. */
  lemma Unfold(replies: seq<Bytes>)
    requires replies != [] && Sendable(replies)
    ensures var s, n := Stream(replies), |replies|;
            if |replies[0]| <= MAX_HEADER then
              Sendable(replies[1..]) && Received(s, n) == [Some(replies[0])] + Received(Stream(replies[1..]), n - 1)
            else Received(s, n) != [] && Received(s, n)[0] == None
  {
    hide CppRest, Result;
    assert replies[0] in replies;
    FirstReply(replies[0], Stream(replies[1..]));
  }

  lemma {:induction false} SmallMatch(replies: seq<Bytes>)
    requires Sendable(replies) && forall r <- replies :: |r| <= MAX_HEADER
    ensures Received(Stream(replies), |replies|) == Own(replies)
    decreases |replies|
  {
    if replies != [] {
      assert replies[0] in replies && forall r <- replies[1..] :: r in replies;
      Unfold(replies);
      assert Own(replies) == [Some(replies[0])] + Own(replies[1..]);
      hide Received, Stream, Own;
      SmallMatch(replies[1..]);
    }
  }

  lemma {:induction false} MatchSmall(replies: seq<Bytes>)
    requires Sendable(replies) && Received(Stream(replies), |replies|) == Own(replies)
    ensures forall r <- replies :: |r| <= MAX_HEADER
    decreases |replies|
  {
    if replies != [] {
      Unfold(replies);
      assert Own(replies)[0] == Some(replies[0]) && Own(replies)[1..] == Own(replies[1..]);
      hide Received, Stream, Own;
      MatchSmall(replies[1..]);
    }
  }

  /** Every call reads the reply to its own request exactly when no reply is over 1 MiB.
      (encode_response keeps to that: it reports an error instead of a longer header.) */
  lemma MatchesExactlyWhen(replies: seq<Bytes>)
    requires Sendable(replies)
    ensures Received(Stream(replies), |replies|) == Own(replies) <==> forall r <- replies :: |r| <= MAX_HEADER
  {
    hide Received, Stream, Own;
    if forall r <- replies :: |r| <= MAX_HEADER { SmallMatch(replies); }
    if Received(Stream(replies), |replies|) == Own(replies) { MatchSmall(replies); }
  }

  // ---------------------------------------------------------------- out of step

  /** Text of a header (JSON has no byte below 9) where a prefix is expected is refused. */
  lemma TextRefused(text: Bytes, rest: Bytes)
    requires |text| >= PREFIX && forall b <- text :: b >= 9
    ensures var s := text + rest; Result(s) == None && CppRest(s) == text[PREFIX..] + rest
  {
    var s := text + rest;
    assert text[7] in text;
    assert s[4..8][3] == text[7];
    assert s[PREFIX..] == text[PREFIX..] + rest;
  }

  /** While there is text left of a refused reply, calls fail, eight bytes each. */
  lemma {:induction false} CallsFail(text: Bytes, rest: Bytes, n: nat, more: nat)
    requires |text| == PREFIX * n && forall b <- text :: b >= 9
    ensures Received(text + rest, n + more) == seq(n, _ => None) + Received(rest, more)
  {
    hide Result, CppRest;
    if n == 0 {
      assert text + rest == rest;
    } else {
      TextRefused(text, rest);
      assert forall b <- text[PREFIX..] :: b in text;
      CallsFail(text[PREFIX..], rest, n - 1, more);
    }
  }

  /** And then a call may read the reply to a request long before it: here the second
      request's, n requests late. */
  lemma StaleReply(reply: Bytes, next: Bytes, n: nat)
    requires MAX_HEADER < |reply| == PREFIX * n && PREFIX + |reply| < 0x1_0000_0000 && |next| <= MAX_HEADER
    requires forall b <- reply :: b >= 9
    ensures Received(Stream([reply, next]), n + 2) == seq(n + 1, _ => None) + [Some(next)]
  {
    hide Result, CppRest;
    var rest := Stream([next]);
    assert [next][1..] == [] && [reply, next][1..] == [next];
    assert Stream([]) == [] && rest == Pack(next, []) + [];
    FirstReply(reply, rest);
    FirstReply(next, []);
    CallsFail(reply, rest, n, 1);
    assert Received(rest, 1) == [Some(next)];
  }
}
