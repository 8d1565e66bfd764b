/**
 How the USB service reads a kernel uevent: NUL-separated strings in a fixed
 buffer, walked by a moving cursor that stops at an empty string or at the first
 Type-C message.
 */
module Uevent {

  const MSG_LEN := 2048
  const NUL := '\0'

  datatype Action = PartnerAdded | Recheck

  // ---- Strings of the message ----

  predicate EndsWith(s: string, suffix: string) {
    |suffix| <= |s| && s[|s| - |suffix|..] == suffix
  }

  /** A full match of "add", any characters but line ends, "-partner". */
  predicate IsPartner(token: string) {
    && |token| >= 11 && "add" <= token && EndsWith(token, "-partner")
    && forall i :: 3 <= i < |token| - 8 ==> token[i] != '\n' && token[i] != '\r'
  }

  predicate IsTypec(token: string) {
    "DEVTYPE=typec_" <= token || "CCIC=WATER" <= token || "CCIC=DRY" <= token
  }

  /** What a string makes a service do, and whether it ends the walk. */
  type Reading = string -> (seq<Action>, bool)

  /** What a string makes this service do. */
  function Asks(t: string): (seq<Action>, bool) {
    if IsPartner(t) then ([PartnerAdded], false) else if IsTypec(t) then ([Recheck], true) else ([], false)
  }

  ghost predicate OneLine(s: string) {
    forall i :: 0 <= i < |s| ==> s[i] != '\n' && s[i] != '\r'
  }

  /** A string announces a partner exactly if it is "add", one line of anything, "-partner". */
  lemma AnnouncesPartnerIff(t: string)
    ensures Asks(t) == ([PartnerAdded], false) <==> exists mid :: OneLine(mid) && t == "add" + mid + "-partner"
  {
    if IsPartner(t) {
      var mid := t[3..|t| - 8];
      assert t == "add" + mid + "-partner";
    }
    if mid :| OneLine(mid) && t == "add" + mid + "-partner" {
      forall i | 3 <= i < |t| - 8 ensures t[i] != '\n' && t[i] != '\r' {
        assert t[i] == mid[i - 3];
      }
      assert t[|t| - 8..] == "-partner";
      assert IsPartner(t);
    }
  }

  /** A string asks for a recheck, and ends the walk, exactly if it starts in one of three ways; and any string that
      neither does so nor announces a partner asks for nothing. */
  lemma AsksForRecheckIff(t: string)
    ensures Asks(t) == ([Recheck], true)
            <==> "DEVTYPE=typec_" <= t || "CCIC=WATER" <= t || "CCIC=DRY" <= t
    ensures Asks(t) in {([PartnerAdded], false), ([Recheck], true), ([], false)}
  {
    if "DEVTYPE=typec_" <= t || "CCIC=WATER" <= t || "CCIC=DRY" <= t {
      assert t[0] != 'a';
      assert "add"[0] == 'a';
    }
  }

  /** Where the string that starts at `cp` ends: at the next NUL or with the message. */
  function End(s: string, cp: nat): (e: nat)
    requires cp <= |s|
    ensures cp <= e <= |s| && (e < |s| ==> s[e] == NUL)
    ensures forall i :: cp <= i < e ==> s[i] != NUL
    decreases |s| - cp
  {
    if cp == |s| || s[cp] == NUL then cp else End(s, cp + 1)
  }

  /** What the rest of a message from `cp` on makes the service do. */
  function WalkFrom(asks: Reading, s: string, cp: nat): seq<Action>
    decreases |s| - cp
  {
    if cp >= |s| || s[cp] == NUL then []
    else
      var e := End(s, cp);
      var (done, last) := asks(s[cp..e]);
      done + if last then [] else WalkFrom(asks, s, e + 1)
  }

  function Walk(s: string): seq<Action> { WalkFrom(Asks, s, 0) }

  // ---- The message as the kernel writes it ----

  ghost predicate IsToken(t: string) {
    t != [] && forall i :: 0 <= i < |t| ==> t[i] != NUL
  }

  ghost predicate Proper(tokens: seq<string>) {
    forall i :: 0 <= i < |tokens| ==> IsToken(tokens[i])
  }

  /** Each string followed by a NUL. */
  function Message(tokens: seq<string>): string {
    if tokens == [] then [] else tokens[0] + [NUL] + Message(tokens[1..])
  }

  /** A partner for each matching string, up to the first Type-C one, which asks for a recheck. */
  function Actions(asks: Reading, tokens: seq<string>): seq<Action> {
    if tokens == [] then []
    else
      var (done, last) := asks(tokens[0]);
      done + if last then [] else Actions(asks, tokens[1..])
  }

  lemma EndIs(s: string, cp: nat, e: nat)
    requires cp <= e <= |s| && (e < |s| ==> s[e] == NUL)
    requires forall i :: cp <= i < e ==> s[i] != NUL
    ensures End(s, cp) == e
  {
  }

  /** `m` stands at `cp`. */
  ghost predicate At(s: string, cp: nat, m: string) {
    cp + |m| <= |s| && forall i :: 0 <= i < |m| ==> s[cp + i] == m[i]
  }

  lemma AtSplit(s: string, cp: nat, a: string, b: string)
    requires At(s, cp, a + b)
    ensures At(s, cp, a) && At(s, cp + |a|, b)
  {
    forall i | 0 <= i < |a| ensures s[cp + i] == a[i] {
      assert (a + b)[i] == a[i];
    }
    forall i | 0 <= i < |b| ensures s[cp + |a| + i] == b[i] {
      assert (a + b)[|a| + i] == b[i];
    }
  }

  ghost predicate TokenAt(s: string, cp: nat, t: string) {
    IsToken(t) && At(s, cp, t) && (cp + |t| < |s| ==> s[cp + |t|] == NUL)
  }

  /** `tokens` one after the other from `cp` to `end`, each with its NUL. */
  ghost predicate TokensAt(s: string, cp: nat, tokens: seq<string>, end: nat)
    decreases |tokens|
  {
    if tokens == [] then cp == end
    else TokenAt(s, cp, tokens[0]) && TokensAt(s, cp + |tokens[0]| + 1, tokens[1..], end)
  }

  lemma TokenEnds(s: string, cp: nat, t: string)
    requires TokenAt(s, cp, t)
    ensures cp < |s| && s[cp] != NUL && End(s, cp) == cp + |t| && s[cp..cp + |t|] == t
  {
    forall i | cp <= i < cp + |t| ensures s[i] == t[i - cp] != NUL {
      assert s[cp + (i - cp)] == t[i - cp];
    }
    EndIs(s, cp, cp + |t|);
  }

  lemma WalkStep(asks: Reading, s: string, cp: nat, t: string, done: seq<Action>, last: bool)
    requires cp < |s| && s[cp] != NUL && t == s[cp..End(s, cp)] && (done, last) == asks(t)
    ensures WalkFrom(asks, s, cp) == done + if last then [] else WalkFrom(asks, s, End(s, cp) + 1)
  {
  }

  /** Where a message has a token, that is visited, and then what follows its NUL if there is one. */
  lemma WalkOne(asks: Reading, s: string, cp: nat, t: string)
    requires TokenAt(s, cp, t)
    ensures var (done, last) := asks(t);
            WalkFrom(asks, s, cp) == done + if last then [] else WalkFrom(asks, s, cp + |t| + 1)
  {
    TokenEnds(s, cp, t);
    WalkStep(asks, s, cp, t, asks(t).0, asks(t).1);
  }

  /** Where a message has a run of strings, those are visited, and then what follows. */
  lemma {:induction false} WalkMessage(asks: Reading, s: string, cp: nat, tokens: seq<string>, end: nat)
    requires TokensAt(s, cp, tokens, end)
    ensures WalkFrom(asks, s, cp) == ActionsThen(asks, tokens, WalkFrom(asks, s, end))
    decreases |tokens|
  {
    if tokens != [] {
      WalkOne(asks, s, cp, tokens[0]);
      WalkMessage(asks, s, cp + |tokens[0]| + 1, tokens[1..], end);
    }
  }

  lemma {:induction false} MessageHasTokens(s: string, cp: nat, tokens: seq<string>)
    requires Proper(tokens) && At(s, cp, Message(tokens))
    ensures TokensAt(s, cp, tokens, cp + |Message(tokens)|)
    decreases |tokens|
  {
    if tokens != [] {
      var t, more := tokens[0], Message(tokens[1..]);
      AtSplit(s, cp, t + [NUL], more);
      AtSplit(s, cp, t, [NUL]);
      assert s[cp + |t| + 0] == [NUL][0];
      MessageHasTokens(s, cp + |t| + 1, tokens[1..]);
    }
  }

  /** The actions of `tokens`, and then `acts` unless the walk has ended. */
  function ActionsThen(asks: Reading, tokens: seq<string>, acts: seq<Action>): seq<Action> {
    if tokens == [] then acts
    else
      var (done, last) := asks(tokens[0]);
      done + if last then [] else ActionsThen(asks, tokens[1..], acts)
  }

  lemma {:induction false} ActionsThenNothing(asks: Reading, tokens: seq<string>)
    ensures ActionsThen(asks, tokens, []) == Actions(asks, tokens)
    decreases |tokens|
  {
    if tokens != [] {
      ActionsThenNothing(asks, tokens[1..]);
    }
  }

  lemma {:induction false} ActionsThenOne(asks: Reading, tokens: seq<string>, t: string)
    ensures ActionsThen(asks, tokens, asks(t).0) == Actions(asks, tokens + [t])
    decreases |tokens|
  {
    if tokens == [] {
      assert [] + [t] == [t] && [t][1..] == [];
    } else {
      ActionsThenOne(asks, tokens[1..], t);
      assert (tokens + [t])[1..] == tokens[1..] + [t];
    }
  }

  lemma WholeMessage(asks: Reading, tokens: seq<string>, rest: string)
    requires Proper(tokens)
    ensures var m := Message(tokens);
            WalkFrom(asks, m + rest, 0) == ActionsThen(asks, tokens, WalkFrom(asks, m + rest, |m|))
  {
    var m := Message(tokens);
    MessageHasTokens(m + rest, 0, tokens);
    WalkMessage(asks, m + rest, 0, tokens, |m|);
  }

  /** Walking a message visits exactly its strings up to the first empty one; nothing after that counts. */
  lemma WalkVisitsTokens(asks: Reading, tokens: seq<string>, tail: string)
    requires Proper(tokens) && (tail == [] || tail[0] == NUL)
    ensures WalkFrom(asks, Message(tokens) + tail, 0) == Actions(asks, tokens)
  {
    WholeMessage(asks, tokens, tail);
    WalkEnd(asks, Message(tokens) + tail, |Message(tokens)|);
    ActionsThenNothing(asks, tokens);
  }

  lemma WalkLast(asks: Reading, before: string, t: string)
    requires IsToken(t)
    ensures WalkFrom(asks, before + t, |before|) == asks(t).0
  {
    var s, cp := before + t, |before|;
    WalkOne(asks, s, cp, t);
    WalkEnd(asks, s, cp + |t| + 1);
  }

  lemma WalkEnd(asks: Reading, s: string, cp: nat)
    requires cp < |s| ==> s[cp] == NUL
    ensures WalkFrom(asks, s, cp) == []
  {
  }

  /** A string without its NUL at the end of the message is visited all the same. */
  lemma WalkVisitsUnterminated(asks: Reading, tokens: seq<string>, last: string)
    requires Proper(tokens) && IsToken(last)
    ensures WalkFrom(asks, Message(tokens) + last, 0) == Actions(asks, tokens + [last])
  {
    WholeMessage(asks, tokens, last);
    WalkLast(asks, Message(tokens), last);
    ActionsThenOne(asks, tokens, last);
  }

  // ---- The walk over the buffer ----

  /** The C string at `cp`, and where the next one starts: just after the next NUL. */
  method NextString(msg: array<char>, cp: nat, ghost s: string) returns (t: string, next: nat)
    requires cp <= |s| < msg.Length && msg[..|s|] == s && msg[|s|] == NUL && msg[cp] != NUL
    ensures cp < |s| && s[cp] != NUL
    ensures next == End(s, cp) + 1 && t == s[cp..End(s, cp)]
  {
    forall k | 0 <= k < |s| ensures s[k] == msg[k] {
      assert s[k] == msg[..|s|][k];
    }
    next := cp;
    while msg[next] != NUL
      invariant cp <= next <= |s|
      invariant forall i :: cp <= i < next ==> s[i] != NUL
      decreases |s| - next
    {
      next := next + 1;
    }
    t := msg[cp..next];
    assert t == s[cp..next];
    EndIs(s, cp, next);
    next := next + 1;
  }

  /** One string further, what has been done and what is left still make up the whole. */
  lemma WalkOn(asks: Reading, s: string, cp: nat, t: string, actions: seq<Action>)
    requires cp < |s| && s[cp] != NUL && t == s[cp..End(s, cp)]
    ensures var (done, last) := asks(t);
            actions + WalkFrom(asks, s, cp)
            == (actions + done) + if last then [] else WalkFrom(asks, s, End(s, cp) + 1)
  {
    WalkStep(asks, s, cp, t, asks(t).0, asks(t).1);
  }

  /** The walk over a buffer that ends in two NULs reads only inside it. */
  method WalkBuffer(asks: Reading, msg: array<char>, n: nat) returns (actions: seq<Action>)
    requires n + 1 < msg.Length && msg[n] == NUL && msg[n + 1] == NUL
    ensures actions == WalkFrom(asks, msg[..n], 0)
  {
    ghost var s := msg[..n];
    ghost var all := WalkFrom(asks, s, 0);
    var cp := 0;
    actions := [];
    while msg[cp] != NUL
      invariant 0 <= cp <= n + 1
      invariant actions + WalkFrom(asks, s, cp) == all
      decreases n + 1 - cp
    {
      var t, next := NextString(msg, cp, s);
      WalkOn(asks, s, cp, t, actions);
      var (done, last) := asks(t);
      actions := actions + done;
      if last {
        return;
      }
      cp := next;
    }
    WalkEnd(asks, s, cp);
  }

  /** `n` is what the socket read returned into the first bytes of `msg`. */
  method UeventEvent(msg: array<char>, n: int) returns (actions: seq<Action>)
    requires msg.Length == MSG_LEN + 2
    modifies msg
    ensures 0 < n < 2048 ==> actions == Walk(old(msg[..n])) && msg[..n] == old(msg[..n])
    ensures !(0 < n < 2048) ==> actions == [] && msg[..] == old(msg[..])
  {
    if n <= 0 {
      return [];
    }
    if n >= MSG_LEN {
      return [];
    }
    msg[n], msg[n + 1] := NUL, NUL;
    assert msg[..n] == old(msg[..n]);
    actions := WalkBuffer(Asks, msg, n);
  }
}
