/** One reconciliation pass of src/server/controller.js (`processDevices`):
    log in, fetch the online serials, list the ledger, keep the online
    serials that are in the ledger, then send the command to each of them in
    turn and mark the ledger row of each one the service accepted. */
module Controller {
  import opened Wrappers
  import opened Seqs
  import opened DeviceLedger
  import opened MesApi

  /** What the remote service answers during one pass. */
  datatype Remote = Remote(
    login: Reply<LoginBody>,
    systems: string -> Reply<Listing>,
    command: string -> Reply<CommandBody>)

  /** The calls a pass makes on the service and on the ledger, in order. */
  datatype Call =
    | Login
    | GetOnlineSystems
    | GetAllDevices
    | SendSwitchCommand(sn: string)
    | MarkModified(sn: string)

  /** Whether the service accepts the command for a serial. */
  function Accepts(remote: Remote): string -> bool
  {
    sn => SwitchAccepted(remote.command(sn))
  }

  /** `onlineSNList.filter(sn => bwSNList.includes(sn))` where `bwSNList`
      holds every serial of the table, modified or not. */
  function Candidates(online: seq<string>, t: Table): (r: seq<string>)
    ensures forall sn :: sn in r <==> sn in online && sn in t
  {
    if online == [] then []
    else
      var init, sn := online[..|online| - 1], online[|online| - 1];
      assert forall x :: x in online <==> x in init || x == sn;
      Candidates(init, t) + (if sn in t then [sn] else [])
  }

  /** Filtering against the serials of a listing is filtering against the
      table, whatever order the listing has. */
  lemma {:induction false} CandidatesOfListing(online: seq<string>, t: Table, devices: seq<Device>)
    requires IsListing(t, devices)
    ensures KeepIn(online, SnsOf(devices)) == Candidates(online, t)
  {
    if online != [] {
      var init, sn := online[..|online| - 1], online[|online| - 1];
      CandidatesOfListing(init, t, devices);
      if sn in t {
        assert sn in SnsOf(devices);
      }
    }
  }

  /** Candidates keep the order of the online list, and each appears once
      when the online list has no duplicates. */
  lemma {:induction false} CandidatesOrder(online: seq<string>, t: Table)
    ensures Subseq(Candidates(online, t), online)
    ensures NoDups(online) ==> NoDups(Candidates(online, t))
  {
    var keep := Candidates(online, t);
    KeepInSameMembers(online, keep, t);
    KeepInSubseq(online, keep);
    if NoDups(online) {
      KeepInNoDups(online, keep);
    }
  }

  lemma {:induction false} KeepInSameMembers(s: seq<string>, keep: seq<string>, t: Table)
    requires forall x :: x in s ==> (x in keep <==> x in t)
    ensures KeepIn(s, keep) == Candidates(s, t)
  {
    if s != [] {
      var init := s[..|s| - 1];
      KeepInSameMembers(init, keep, t);
    }
  }

  /** The calls of the send loop over `cands`: one send per candidate, in
      order, each followed by a mark exactly when it was accepted. */
  function SendAndMark(cands: seq<string>, accept: string -> bool): (r: seq<Call>)
    ensures |cands| <= |r| <= 2 * |cands|
  {
    if cands == [] then []
    else
      SendAndMark(cands[..|cands| - 1], accept) + Step(cands[|cands| - 1], accept)
  }

  /** One turn of the send loop: the send, then the mark when it was accepted. */
  function Step(sn: string, accept: string -> bool): seq<Call>
  {
    [SendSwitchCommand(sn)] + (if accept(sn) then [MarkModified(sn)] else [])
  }

  lemma StepCalls(sn: string, accept: string -> bool)
    ensures Sends(Step(sn, accept)) == [sn]
    ensures Marks(Step(sn, accept)) == if accept(sn) then [sn] else []
  {
    var send := [SendSwitchCommand(sn)];
    assert send[..0] == [];
    assert Sends(send) == [sn] && Marks(send) == [];
    if accept(sn) {
      var step := send + [MarkModified(sn)];
      assert step[..1] == send;
      assert Sends(step) == [sn] && Marks(step) == [sn];
    } else {
      assert Step(sn, accept) == send;
    }
  }

  /** The serials sent to, in order. */
  function Sends(calls: seq<Call>): seq<string>
  {
    if calls == [] then []
    else
      var c := calls[|calls| - 1];
      Sends(calls[..|calls| - 1]) + (if c.SendSwitchCommand? then [c.sn] else [])
  }

  /** The serials marked, in order. */
  function Marks(calls: seq<Call>): seq<string>
  {
    if calls == [] then []
    else
      var c := calls[|calls| - 1];
      Marks(calls[..|calls| - 1]) + (if c.MarkModified? then [c.sn] else [])
  }

  lemma {:induction false} SendsAppend(a: seq<Call>, b: seq<Call>)
    ensures Sends(a + b) == Sends(a) + Sends(b)
    ensures Marks(a + b) == Marks(a) + Marks(b)
    decreases |b|
  {
    if b != [] {
      var init, c := b[..|b| - 1], b[|b| - 1];
      assert (a + b)[..|a + b| - 1] == a + init;
      assert (a + b)[|a + b| - 1] == c;
      SendsAppend(a, init);
      var s := if c.SendSwitchCommand? then [c.sn] else [];
      var m := if c.MarkModified? then [c.sn] else [];
      assert Sends(b) == Sends(init) + s;
      assert Marks(b) == Marks(init) + m;
    } else {
      assert a + b == a;
    }
  }

  /** Every candidate is sent exactly once, in candidate order (a rejected
      send does not stop the loop), and exactly the accepted candidates are
      marked, in the same order. */
  lemma {:induction false} SendAndMarkCalls(cands: seq<string>, accept: string -> bool)
    ensures Sends(SendAndMark(cands, accept)) == cands
    ensures Marks(SendAndMark(cands, accept)) == Filter(cands, accept)
  {
    if cands != [] {
      var init, sn := cands[..|cands| - 1], cands[|cands| - 1];
      assert cands == init + [sn];
      FilterAppend(init, sn, accept);
      SendAndMarkCalls(init, accept);
      SendsAppend(SendAndMark(init, accept), Step(sn, accept));
      StepCalls(sn, accept);
    }
  }

  /** A mark always comes right after the accepted send for the same serial. */
  lemma {:induction false} MarkFollowsAcceptedSend(cands: seq<string>, accept: string -> bool, k: nat)
    requires k < |SendAndMark(cands, accept)| && SendAndMark(cands, accept)[k].MarkModified?
    ensures var calls := SendAndMark(cands, accept);
      k > 0 && calls[k - 1] == SendSwitchCommand(calls[k].sn) && accept(calls[k].sn)
  {
    var init, sn := cands[..|cands| - 1], cands[|cands| - 1];
    var prev := SendAndMark(init, accept);
    if k < |prev| {
      MarkFollowsAcceptedSend(init, accept, k);
    }
  }

  /** The table after the send loop: each accepted candidate marked in turn. */
  function MarkAccepted(t: Table, cands: seq<string>, accept: string -> bool, now: Time): (r: Table)
    ensures r.Keys == t.Keys
  {
    if cands == [] then t
    else
      var prev, sn := MarkAccepted(t, cands[..|cands| - 1], accept, now), cands[|cands| - 1];
      if accept(sn) then Mark(prev, sn, now) else prev
  }

  /** After the loop, the rows of accepted candidates are modified with the
      pass's time, and every other row is exactly as before. */
  lemma {:induction false} MarkAcceptedEffect(t: Table, cands: seq<string>, accept: string -> bool, now: Time)
    ensures MarkAccepted(t, cands, accept, now).Keys == t.Keys
    ensures forall sn :: sn in t ==>
      MarkAccepted(t, cands, accept, now)[sn] ==
        if sn in cands && accept(sn) then Row(1, Some(now), t[sn].createdAt) else t[sn]
  {
    if cands != [] {
      var init, last := cands[..|cands| - 1], cands[|cands| - 1];
      MarkAcceptedEffect(t, init, accept, now);
      assert forall x :: x in cands <==> x in init || x == last;
    }
  }

  /** A pass after a successful login leaves, for every row, exactly this:
      modified now if its serial was online and the command was accepted,
      untouched otherwise. Ledger serials that are not online and online
      serials that are not in the ledger are never sent. Already modified
      rows are candidates again whenever they are online. */
  lemma PassEffect(t: Table, online: seq<string>, accept: string -> bool, now: Time)
    ensures Sends(SendAndMark(Candidates(online, t), accept)) == Candidates(online, t)
    ensures forall sn :: sn in Candidates(online, t) <==> sn in online && sn in t
    ensures MarkAccepted(t, Candidates(online, t), accept, now).Keys == t.Keys
    ensures forall sn :: sn in t ==>
      MarkAccepted(t, Candidates(online, t), accept, now)[sn] ==
        if sn in online && accept(sn) then Row(1, Some(now), t[sn].createdAt) else t[sn]
  {
    SendAndMarkCalls(Candidates(online, t), accept);
    MarkAcceptedEffect(t, Candidates(online, t), accept, now);
  }

  /** A serial is sent to (marked) exactly when it is among the sends
      (marks) of the calls. */
  lemma {:induction false} CallsOfSendsAndMarks(calls: seq<Call>)
    ensures forall sn :: SendSwitchCommand(sn) in calls <==> sn in Sends(calls)
    ensures forall sn :: MarkModified(sn) in calls <==> sn in Marks(calls)
    decreases |calls|
  {
    if calls != [] {
      var init := calls[..|calls| - 1];
      CallsOfSendsAndMarks(init);
      assert calls == init + [calls[|calls| - 1]];
    }
  }

  /** A candidate whose command request throws or answers with a code other
      than 200 is sent to but never marked, its row stays as it was, and
      the loop still sends to every candidate. */
  lemma RejectedCommand(remote: Remote, online: seq<string>, t: Table, now: Time, sn: string)
    requires sn in online && sn in t
    requires remote.command(sn).Threw? || remote.command(sn).body.code != Some(200)
    ensures var cands := Candidates(online, t);
      var calls := SendAndMark(cands, Accepts(remote));
      && SendSwitchCommand(sn) in calls
      && MarkModified(sn) !in calls
      && MarkAccepted(t, cands, Accepts(remote), now)[sn] == t[sn]
      && (forall x :: x in cands ==> SendSwitchCommand(x) in calls)
  {
    var cands := Candidates(online, t);
    var accept := Accepts(remote);
    assert !accept(sn);
    SendAndMarkCalls(cands, accept);
    CallsOfSendsAndMarks(SendAndMark(cands, accept));
    MarkAcceptedEffect(t, cands, accept, now);
  }

  /** `processDevices()` with the service answering as `remote` and every
      ledger write stamped `now`. */
  method ProcessDevices(api: Client, db: Ledger, remote: Remote, now: Time) returns (calls: seq<Call>)
    requires db.Valid()
    modifies api, db
    ensures db.Valid()
    ensures LoginAccepted(remote.login) ==>
      api.token == remote.login.body.data.value && api.authorization == Some("Bearer " + TokenText(api.token))
    ensures !LoginAccepted(remote.login) ==> api.token == old(api.token) && api.authorization == old(api.authorization)
    ensures !LoginAccepted(remote.login) ==> calls == [Login] && db.table == old(db.table)
    ensures LoginAccepted(remote.login) ==>
      var cands := Candidates(OnlineSystems(remote.systems), old(db.table));
      && calls == [Login, GetOnlineSystems, GetAllDevices] + SendAndMark(cands, Accepts(remote))
      && db.table == MarkAccepted(old(db.table), cands, Accepts(remote), now)
  {
    var loginSuccess := api.Login(remote.login);
    calls := [Login];
    if !loginSuccess {
      return;
    }

    ghost var t := db.table;
    assert t == old(db.table);
    var onlineSNList := OnlineSystems(remote.systems);
    calls := calls + [GetOnlineSystems];

    var bwDevices := db.AllDevices();
    calls := calls + [GetAllDevices];
    var bwSNList := SnsOf(bwDevices);

    var devicesToUpdate := KeepIn(onlineSNList, bwSNList);
    CandidatesOfListing(onlineSNList, t, bwDevices);
    assert devicesToUpdate == Candidates(onlineSNList, t);

    assert calls == [Login, GetOnlineSystems, GetAllDevices];
    var sendCalls := SendEach(db, remote, devicesToUpdate, now);
    calls := calls + sendCalls;
  }

  /** The `for` loop of `processDevices`: send to each serial in turn and,
      when the service accepts, mark its row. */
  method SendEach(db: Ledger, remote: Remote, devicesToUpdate: seq<string>, now: Time) returns (calls: seq<Call>)
    requires db.Valid()
    modifies db
    ensures db.Valid()
    ensures calls == SendAndMark(devicesToUpdate, Accepts(remote))
    ensures db.table == MarkAccepted(old(db.table), devicesToUpdate, Accepts(remote), now)
  {
    calls := [];
    var accept := Accepts(remote);
    for i := 0 to |devicesToUpdate|
      invariant db.Valid()
      invariant calls == SendAndMark(devicesToUpdate[..i], accept)
      invariant db.table == MarkAccepted(old(db.table), devicesToUpdate[..i], accept, now)
    {
      var deviceSN := devicesToUpdate[i];
      assert devicesToUpdate[..i + 1][..i] == devicesToUpdate[..i];
      var success := SwitchAccepted(remote.command(deviceSN));
      calls := calls + [SendSwitchCommand(deviceSN)];
      if success {
        db.MarkModified(deviceSN, now);
        calls := calls + [MarkModified(deviceSN)];
      }
    }
    assert devicesToUpdate[..|devicesToUpdate|] == devicesToUpdate;
  }
}
