/** The client of the remote management service in src/server/api.js. The
    HTTP transport (axios) is replaced by the replies it delivers: an axios
    call either rejects (network error, or a status outside 2xx) or yields
    the response body, reduced here to the fields the code reads. */
module MesApi {
  import opened Wrappers
  import opened Seqs

  /** The outcome of one awaited axios request. */
  datatype Reply<T> = Threw | Replied(body: T)

  /** The login response body: `code` (None when absent or not a number)
      and `data` (None when null or undefined; otherwise the `AccessToken`
      inside it, None when that is undefined). */
  datatype LoginBody = LoginBody(code: Option<int>, data: Option<Option<string>>)

  /** What `response?.data?.data?.data` is in a systems response: a falsy
      value, an array of items (given by their `sys_sn`), or a truthy value
      that is not an array (`.map` on it throws). */
  datatype Listing = Falsy | Items(sns: seq<string>) | NotAnArray

  /** The command response body; only `code` is read. */
  datatype CommandBody = CommandBody(code: Option<int>)

  /** The three device states `getOnlineSystems` asks for, in this order. */
  const States: seq<string> := ["normal", "protection", "fault"]

  // ---------------------------------------------------------------------
  // login

  /** Whether `login` resolves to true: the body's code is exactly 200 and
      its `data` exists (reading `AccessToken` of a missing `data` throws,
      and the catch returns false). */
  function LoginAccepted(reply: Reply<LoginBody>): (ok: bool)
    ensures ok ==> reply.Replied? && reply.body.code == Some(200)
    ensures ok ==> reply.body.data.Some?
    ensures reply.Replied? && reply.body.code == Some(200) && reply.body.data.Some? ==> ok
    ensures reply.Threw? ==> !ok
  {
    reply.Replied? && reply.body.code == Some(200) && reply.body.data.Some?
  }

  /** How a token is spelled inside a template string. */
  function TokenText(token: Option<string>): string
  {
    if token.Some? then token.value else "undefined"
  }

  /** The exported singleton: the token it holds and the `Authorization`
      default header it installs on the axios instance. */
  class Client {
    var token: Option<string>
    var authorization: Option<string>

    constructor ()
      ensures token == None && authorization == None
    {
      token := None;
      authorization := None;
    }

    /** `login()`: on acceptance stores the token and the bearer header;
        otherwise (including every exception) changes nothing. */
    method Login(reply: Reply<LoginBody>) returns (ok: bool)
      modifies this
      ensures ok == LoginAccepted(reply)
      ensures ok ==> token == reply.body.data.value && authorization == Some("Bearer " + TokenText(token))
      ensures !ok ==> token == old(token) && authorization == old(authorization)
    {
      if reply.Threw? {
        return false;
      }
      if reply.body.code == Some(200) {
        if reply.body.data.None? {
          return false;
        }
        token := reply.body.data.value;
        authorization := Some("Bearer " + TokenText(token));
        return true;
      }
      return false;
    }
  }

  // ---------------------------------------------------------------------
  // getOnlineSystems

  /** A reply that makes the whole `try` block throw. */
  predicate Breaks(reply: Reply<Listing>)
  {
    reply.Threw? || reply.body.NotAnArray?
  }

  /** The serials one reply contributes to the `flatMap`. */
  function Contribution(reply: Reply<Listing>): seq<string>
  {
    if reply.Replied? && reply.body.Items? then reply.body.sns else []
  }

  function Flatten(replies: seq<Reply<Listing>>): (r: seq<string>)
    ensures forall x :: x in r <==> exists k :: 0 <= k < |replies| && x in Contribution(replies[k])
  {
    if replies == [] then []
    else
      var rest := Flatten(replies[1..]);
      assert forall k :: 1 <= k < |replies| ==> replies[k] == replies[1..][k - 1];
      Contribution(replies[0]) + rest
  }

  /** The merge of `getOnlineSystems`: if any request rejected or any
      listing cannot be mapped, the catch returns []; otherwise the serials
      of all replies go through a `Set`. */
  function MergeOnline(replies: seq<Reply<Listing>>): (r: seq<string>)
    ensures NoDups(r)
    ensures forall x :: x in r ==> x in Flatten(replies)
  {
    if exists k :: 0 <= k < |replies| && Breaks(replies[k]) then []
    else Dedup(Flatten(replies))
  }

  /** `getOnlineSystems()`, given what the service answers per state. */
  function OnlineSystems(systems: string -> Reply<Listing>): (r: seq<string>)
    ensures NoDups(r)
  {
    MergeOnline([systems(States[0]), systems(States[1]), systems(States[2])])
  }

  /** The merged result has no duplicates; one broken reply empties it;
      otherwise a serial is in it exactly when some reply lists it (a falsy
      listing lists nothing). */
  lemma MergeOnlineSpec(replies: seq<Reply<Listing>>)
    ensures NoDups(MergeOnline(replies))
    ensures (exists k :: 0 <= k < |replies| && Breaks(replies[k])) ==> MergeOnline(replies) == []
    ensures (forall k :: 0 <= k < |replies| ==> !Breaks(replies[k])) ==>
      forall x :: x in MergeOnline(replies) <==>
        exists k :: 0 <= k < |replies| && replies[k].body.Items? && x in replies[k].body.sns
  {
    if forall k :: 0 <= k < |replies| ==> !Breaks(replies[k]) {
      forall x | x in MergeOnline(replies)
        ensures exists k :: 0 <= k < |replies| && replies[k].body.Items? && x in replies[k].body.sns
      {
        var k :| 0 <= k < |replies| && x in Contribution(replies[k]);
      }
      forall x, k | 0 <= k < |replies| && replies[k].body.Items? && x in replies[k].body.sns
        ensures x in MergeOnline(replies)
      {
        assert x in Contribution(replies[k]);
      }
    }
  }

  /** Serials come out in the order of their first occurrence when scanning
      the normal, then the protection, then the fault listing. */
  lemma MergeOnlineOrder(replies: seq<Reply<Listing>>, i: nat, j: nat)
    requires forall k :: 0 <= k < |replies| ==> !Breaks(replies[k])
    requires i < j < |MergeOnline(replies)|
    ensures MergeOnline(replies)[i] in Flatten(replies) && MergeOnline(replies)[j] in Flatten(replies)
    ensures FirstIndex(Flatten(replies), MergeOnline(replies)[i]) < FirstIndex(Flatten(replies), MergeOnline(replies)[j])
  {
    DedupFirstOccurrenceOrder(Flatten(replies), i, j);
  }

  /** Only the three state queries matter: two services that answer them
      alike give the same online list. */
  lemma OnlineSystemsAsksThreeStates(f: string -> Reply<Listing>, g: string -> Reply<Listing>)
    requires forall k :: 0 <= k < |States| ==> f(States[k]) == g(States[k])
    ensures OnlineSystems(f) == OnlineSystems(g)
  {
    assert f(States[0]) == g(States[0]) && f(States[1]) == g(States[1]) && f(States[2]) == g(States[2]);
  }

  // ---------------------------------------------------------------------
  // sendSwitchCommand

  /** `sendSwitchCommand(sn)` resolves to true exactly when the request
      succeeded and the body's code is 200. */
  function SwitchAccepted(reply: Reply<CommandBody>): bool
  {
    match reply
    case Threw => false
    case Replied(body) => body.code == Some(200)
  }
}
