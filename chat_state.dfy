/**
 * The relay's state and its two requests as functions of that state: the
 * message log (`message_store` with `total_messages`, server.c:31-32), the
 * client registry (`clients` with `total_clients`, server.c:34-35), publish
 * (`handle_post`, server.c:98-113) and poll (`handle_get`, server.c:123-159).
 * The class in relay.dfy runs the same steps in place and is proved to
 * produce exactly these results.
 */
module ChatState {
  import opened Wrappers
  import opened CStrings
  import opened UrlDecoding
  import opened Params

  /** `MAX_STORED_MSGS`: the log keeps at most this many messages. */
  const MaxStoredMsgs: nat := 500
  /** `MAX_CLIENTS`: the registry keeps at most this many sessions. */
  const MaxClients: nat := 50

  /** `ChatMessage`: a decoded text and the decoded identity of its sender. */
  datatype Message = Message(msg: string, senderId: string)

  /** `ClientSession`: an identity and the log index of the first message it has not seen. */
  datatype Session = Session(clientId: string, lastSeenIndex: nat)

  /** The used parts of the two global arrays, in index order. */
  datatype RelayState = RelayState(log: seq<Message>, sessions: seq<Session>)

  /** The zero-initialised globals at process start. */
  const Initial: RelayState := RelayState([], [])

  /**
   * What every request keeps true: both arrays within capacity, no cursor
   * beyond the end of the log, and at most one session per identity.
   */
  predicate Inv(st: RelayState)
  {
    |st.log| <= MaxStoredMsgs && |st.sessions| <= MaxClients &&
    (forall k :: 0 <= k < |st.sessions| ==> st.sessions[k].lastSeenIndex <= |st.log|) &&
    (forall a, b :: 0 <= a < b < |st.sessions| ==> st.sessions[a].clientId != st.sessions[b].clientId)
  }

  lemma InitialInv()
    ensures Inv(Initial)
  {
  }

  // ---------------------------------------------------------------------
  // Client registry: get_client_index (server.c:81-94)
  // ---------------------------------------------------------------------

  /** The lowest index at or after `from` whose session belongs to `id`. */
  function FindSessionFrom(sessions: seq<Session>, id: string, from: nat): (r: Option<nat>)
    ensures r.Some? ==> from <= r.value < |sessions| && sessions[r.value].clientId == id
    ensures forall j :: from <= j < |sessions| && (r.None? || j < r.value) ==> sessions[j].clientId != id
    decreases |sessions| - from
  {
    if from >= |sessions| then None
    else if sessions[from].clientId == id then Some(from)
    else FindSessionFrom(sessions, id, from + 1)
  }

  /** The index `get_client_index` returns and the registry it leaves behind. */
  datatype Resolution = Resolution(index: nat, sessions: seq<Session>)

  /**
   * Find-or-create: the first session of `id` if there is one; otherwise a
   * new session at the end with cursor 0 if there is room; otherwise index
   * 0, whoever owns it, with nothing changed.
   */
  function Resolve(sessions: seq<Session>, id: string): (r: Resolution)
    requires |sessions| <= MaxClients
    ensures r.index < |r.sessions| <= MaxClients
    ensures |sessions| <= |r.sessions| <= |sessions| + 1 && r.sessions[..|sessions|] == sessions
    ensures r.sessions[r.index].clientId == id || (|sessions| == MaxClients && r == Resolution(0, sessions))
  {
    match FindSessionFrom(sessions, id, 0)
    case Some(i) => Resolution(i, sessions)
    case None =>
      if |sessions| < MaxClients then Resolution(|sessions|, sessions + [Session(id, 0)])
      else Resolution(0, sessions)
  }

  /** A known identity gets its lowest-indexed session back and the registry is unchanged. */
  lemma ResolveKnown(sessions: seq<Session>, id: string, i: nat)
    requires |sessions| <= MaxClients
    requires i < |sessions| && sessions[i].clientId == id
    requires forall j :: 0 <= j < i ==> sessions[j].clientId != id
    ensures Resolve(sessions, id) == Resolution(i, sessions)
  {
    FindSessionFindsFirst(sessions, id, i);
  }

  /**
   * An unknown identity gets a fresh session, appended with cursor 0, while
   * there is room; once the registry is full it gets index 0 and nothing
   * changes.
   */
  lemma ResolveUnknown(sessions: seq<Session>, id: string)
    requires |sessions| <= MaxClients
    requires forall j :: 0 <= j < |sessions| ==> sessions[j].clientId != id
    ensures |sessions| < MaxClients ==>
      Resolve(sessions, id) == Resolution(|sessions|, sessions + [Session(id, 0)])
    ensures |sessions| == MaxClients ==> Resolve(sessions, id) == Resolution(0, sessions)
  {
  }

  /** The lowest index holding `id` is what the search finds. */
  lemma FindSessionFindsFirst(sessions: seq<Session>, id: string, i: nat)
    requires i < |sessions| && sessions[i].clientId == id
    requires forall j :: 0 <= j < i ==> sessions[j].clientId != id
    ensures FindSessionFrom(sessions, id, 0) == Some(i)
  {
  }

  /** Find-or-create keeps the registry invariant. */
  lemma ResolvePreservesInv(st: RelayState, id: string)
    requires Inv(st)
    ensures Inv(st.(sessions := Resolve(st.sessions, id).sessions))
  {
    var r := Resolve(st.sessions, id);
    if FindSessionFrom(st.sessions, id, 0).None? && |st.sessions| < MaxClients {
      var s' := r.sessions;
      assert s' == st.sessions + [Session(id, 0)];
      forall a, b | 0 <= a < b < |s'| ensures s'[a].clientId != s'[b].clientId {
        if b == |st.sessions| {
          assert s'[a] == st.sessions[a];
        }
      }
    }
  }

  /**
   * Moving the cursor of the session that find-or-create chose does not
   * change the choice: the same identity is resolved to the same index and
   * no session is created.
   */
  lemma ResolveAgain(sessions: seq<Session>, id: string, cursor: nat)
    requires |sessions| <= MaxClients
    ensures var r := Resolve(sessions, id);
      var moved := r.sessions[r.index := r.sessions[r.index].(lastSeenIndex := cursor)];
      Resolve(moved, id) == Resolution(r.index, moved)
  {
    var r := Resolve(sessions, id);
    var moved := r.sessions[r.index := r.sessions[r.index].(lastSeenIndex := cursor)];
    assert forall k :: 0 <= k < |moved| ==> moved[k].clientId == r.sessions[k].clientId;
    match FindSessionFrom(sessions, id, 0)
    case Some(i) =>
      FindSessionFindsFirst(moved, id, i);
    case None =>
      if |sessions| < MaxClients {
        FindSessionFindsFirst(moved, id, |sessions|);
      } else {
        ResolveUnknown(moved, id);
      }
  }

  // ---------------------------------------------------------------------
  // Message log: handle_post (server.c:98-113)
  // ---------------------------------------------------------------------

  /** The result of a publish: the new state and whether a message was stored. */
  datatype PublishOutcome = PublishOutcome(state: RelayState, stored: bool)

  /**
   * `handle_post`: the raw `message` and `client_id` values of the body are
   * extracted; if the raw message is not empty and the log has room, both
   * are decoded and appended as one message.
   */
  function PublishStep(st: RelayState, body: string): (r: PublishOutcome)
    ensures r.state.sessions == st.sessions
    ensures st.log <= r.state.log && |r.state.log| <= |st.log| + 1
  {
    var rawMsg := ParamValue(body, "message");
    var rawId := ParamValue(body, "client_id");
    if |rawMsg| > 0 && |st.log| < MaxStoredMsgs then
      PublishOutcome(st.(log := st.log + [Message(AsCString(Decoded(rawMsg)), AsCString(Decoded(rawId)))]), true)
    else
      PublishOutcome(st, false)
  }

  /**
   * A publish appends exactly one message when the still-encoded message is
   * not empty and the log is not full, and changes nothing otherwise. The
   * earlier messages and the registry are never touched.
   */
  lemma PublishAppendsAtMostOne(st: RelayState, body: string)
    ensures var o, rawMsg := PublishStep(st, body), ParamValue(body, "message");
      && (o.stored <==> rawMsg != "" && |st.log| < MaxStoredMsgs)
      && |o.state.log| == |st.log| + (if o.stored then 1 else 0)
      && o.state.log[..|st.log|] == st.log
      && o.state.sessions == st.sessions
      && (o.stored ==>
            o.state.log[|st.log|] == Message(AsCString(Decoded(rawMsg)), AsCString(Decoded(ParamValue(body, "client_id")))))
  {
  }

  /** A publish keeps the invariant; in particular the log never exceeds its capacity. */
  lemma PublishPreservesInv(st: RelayState, body: string)
    requires Inv(st)
    ensures Inv(PublishStep(st, body).state)
  {
  }

  /** A series of publishes, one request after the other. */
  function PublishAll(st: RelayState, bodies: seq<string>): (r: RelayState)
    ensures r.sessions == st.sessions
    ensures st.log <= r.log
    ensures Inv(st) ==> Inv(r)
    decreases |bodies|
  {
    if bodies == [] then st
    else PublishAll(PublishStep(st, bodies[0]).state, bodies[1..])
  }

  // ---------------------------------------------------------------------
  // Delivery: handle_get (server.c:123-159)
  // ---------------------------------------------------------------------

  /**
   * The identity a poll speaks for: the decoded `client_id` of the query
   * string, `""` when the query has no such key, and `"unknown"` when the
   * URL has no `?` at all.
   */
  function PollIdentity(url: string): (id: string)
    ensures '\0' !in id
  {
    var queryStart := FirstIndexOfFrom(url, '?', 0);
    if queryStart.None? then "unknown" else QueryIdentity(url[queryStart.value + 1..])
  }

  /** The decoded `client_id` of a query string, as far as C string functions read it. */
  function QueryIdentity(query: string): (id: string)
    ensures '\0' !in id
  {
    AsCString(Decoded(ParamValue(query, "client_id")))
  }

  /** Without a `?` the poll speaks for `"unknown"`. */
  lemma PollIdentityWithoutQuery(url: string)
    requires '?' !in url
    ensures PollIdentity(url) == "unknown"
  {
  }

  /** With a `?` the poll speaks for the identity in the text after the first `?`. */
  lemma PollIdentityWithQuery(url: string, q: nat)
    requires q < |url| && url[q] == '?' && '?' !in url[..q]
    ensures PollIdentity(url) == QueryIdentity(url[q + 1..])
  {
    forall j | 0 <= j < q ensures url[j] != '?' {
      assert url[..q][j] == url[j];
    }
    assert FirstIndexOfFrom(url, '?', 0) == Some(q);
  }

  /** A query string without `client_id=` gives the empty identity, not `"unknown"`. */
  lemma QueryIdentityWithoutKey(query: string)
    requires forall j :: !OccursAt(query, "client_id=", j)
    ensures QueryIdentity(query) == ""
  {
    assert "client_id" + "=" == "client_id=";
    ParamValueAbsent(query, "client_id");
  }

  /**
   * The text the loop of `handle_get` has built after visiting log entries
   * `from` up to `upTo`: each message not sent by `id`, followed by a newline.
   */
  function Batch(log: seq<Message>, from: nat, upTo: nat, id: string): string
    requires upTo <= |log|
    decreases upTo
  {
    if upTo <= from then ""
    else Batch(log, from, upTo - 1, id) + (if log[upTo - 1].senderId != id then log[upTo - 1].msg + "\n" else "")
  }

  /** The result of a poll: the new state and the response body. */
  datatype PollOutcome = PollOutcome(state: RelayState, reply: string)

  /** The cursor of the session a poll by `id` would use. */
  function CursorFor(st: RelayState, id: string): nat
    requires |st.sessions| <= MaxClients
  {
    var r := Resolve(st.sessions, id);
    r.sessions[r.index].lastSeenIndex
  }

  /**
   * `handle_get`: resolve the identity, find or create its session, collect
   * every message from the session's cursor to the end of the log that the
   * identity did not send, and move the cursor to the end of the log.
   */
  function PollStep(st: RelayState, url: string): (r: PollOutcome)
    requires |st.sessions| <= MaxClients
    ensures r.state.log == st.log
    ensures |st.sessions| <= |r.state.sessions| <= MaxClients
  {
    var id := PollIdentity(url);
    var r := Resolve(st.sessions, id);
    var cursor := r.sessions[r.index].lastSeenIndex;
    var sessions := r.sessions[r.index := r.sessions[r.index].(lastSeenIndex := |st.log|)];
    PollOutcome(RelayState(st.log, sessions), Batch(st.log, cursor, |st.log|, id))
  }

  /**
   * The log indices a poll by `id` delivers when its cursor is `from`: those
   * in `[from, |log|)` whose sender is not `id`, in log order (see
   * SelectedIsUnseenForeign).
   */
  function Selected(log: seq<Message>, from: nat, id: string): (r: seq<nat>)
    ensures forall k :: 0 <= k < |r| ==> from <= r[k] < |log|
    decreases |log|
  {
    if |log| <= from then []
    else
      var last := |log| - 1;
      Selected(log[..last], from, id) + (if log[last].senderId != id then [last] else [])
  }

  /** No self-echo: nothing selected for `id` was sent by `id`. */
  lemma {:induction false} SelectedExcludesOwn(log: seq<Message>, from: nat, id: string)
    ensures forall k :: 0 <= k < |Selected(log, from, id)| ==> log[Selected(log, from, id)[k]].senderId != id
    decreases |log|
  {
    if |log| > from {
      var last := |log| - 1;
      var init := log[..last];
      SelectedExcludesOwn(init, from, id);
      var earlier := Selected(init, from, id);
      var r := Selected(log, from, id);
      assert r == earlier + (if log[last].senderId != id then [last] else []);
      forall k | 0 <= k < |r| ensures log[r[k]].senderId != id {
        if k < |earlier| {
          assert r[k] == earlier[k];
          assert init[earlier[k]].senderId != id;
        }
      }
    }
  }

  /** No loss: every message in `[from, |log|)` not sent by `id` is selected. */
  lemma {:induction false} SelectedIncludesForeign(log: seq<Message>, from: nat, id: string)
    ensures forall i :: from <= i < |log| && log[i].senderId != id ==> i in Selected(log, from, id)
    decreases |log|
  {
    if |log| > from {
      var last := |log| - 1;
      var init := log[..last];
      SelectedIncludesForeign(init, from, id);
      var earlier := Selected(init, from, id);
      var r := Selected(log, from, id);
      assert r == earlier + (if log[last].senderId != id then [last] else []);
      forall i | from <= i < |log| && log[i].senderId != id ensures i in r {
        if i < last {
          assert init[i] == log[i];
          assert i in earlier;
        } else {
          assert r[|r| - 1] == last;
        }
      }
    }
  }

  /** No duplication: the selection is strictly increasing, so it follows log order. */
  lemma {:induction false} SelectedIncreasing(log: seq<Message>, from: nat, id: string)
    ensures forall a, b :: 0 <= a < b < |Selected(log, from, id)| ==> Selected(log, from, id)[a] < Selected(log, from, id)[b]
    decreases |log|
  {
    if |log| > from {
      var last := |log| - 1;
      var init := log[..last];
      SelectedIncreasing(init, from, id);
      var earlier := Selected(init, from, id);
      var r := Selected(log, from, id);
      assert r == earlier + (if log[last].senderId != id then [last] else []);
      forall a, b | 0 <= a < b < |r| ensures r[a] < r[b] {
        if b < |earlier| {
          assert r[a] == earlier[a] && r[b] == earlier[b];
        } else {
          assert r[a] == earlier[a] && r[b] == last;
        }
      }
    }
  }

  /**
   * No self-echo, no loss, no duplication: the selection holds no message
   * sent by `id`, holds every other message in the range, and is strictly
   * increasing, so each message appears once and in log order.
   */
  lemma SelectedIsUnseenForeign(log: seq<Message>, from: nat, id: string)
    ensures forall k :: 0 <= k < |Selected(log, from, id)| ==> log[Selected(log, from, id)[k]].senderId != id
    ensures forall i :: from <= i < |log| && log[i].senderId != id ==> i in Selected(log, from, id)
    ensures forall a, b :: 0 <= a < b < |Selected(log, from, id)| ==> Selected(log, from, id)[a] < Selected(log, from, id)[b]
  {
    SelectedExcludesOwn(log, from, id);
    SelectedIncludesForeign(log, from, id);
    SelectedIncreasing(log, from, id);
  }

  /** The messages at `picks`, each followed by a newline; empty exactly when nothing is picked. */
  function Render(log: seq<Message>, picks: seq<nat>): (r: string)
    requires forall k :: 0 <= k < |picks| ==> picks[k] < |log|
    ensures r == "" <==> picks == []
  {
    if picks == [] then ""
    else Render(log, picks[..|picks| - 1]) + log[picks[|picks| - 1]].msg + "\n"
  }

  /** What is pending for `id`: the messages a poll by `id` would deliver now. */
  function Pending(st: RelayState, id: string): seq<nat>
    requires |st.sessions| <= MaxClients
  {
    Selected(st.log, CursorFor(st, id), id)
  }

  /** The loop's text is the selected messages, rendered in log order. */
  lemma {:induction false} BatchRendersSelected(log: seq<Message>, from: nat, upTo: nat, id: string)
    requires upTo <= |log|
    ensures Batch(log, from, upTo, id) == Render(log, Selected(log[..upTo], from, id))
  {
    if upTo > from {
      BatchRendersSelected(log, from, upTo - 1, id);
      var prefix := log[..upTo];
      assert prefix[..upTo - 1] == log[..upTo - 1];
      var earlier := Selected(log[..upTo - 1], from, id);
      if log[upTo - 1].senderId != id {
        var picks := earlier + [upTo - 1];
        assert Selected(prefix, from, id) == picks;
        assert picks[..|picks| - 1] == earlier;
        assert Render(log, picks) == Render(log, earlier) + log[upTo - 1].msg + "\n";
      } else {
        assert Selected(prefix, from, id) == earlier + [] == earlier;
        assert Batch(log, from, upTo, id) == Batch(log, from, upTo - 1, id) + "";
      }
    }
  }

  /**
   * A poll replies with exactly the pending messages: every message from its
   * cursor onwards that it did not send itself, in log order, each once.
   * In particular it never echoes a message back to its sender.
   */
  lemma PollRepliesPending(st: RelayState, url: string)
    requires Inv(st)
    ensures var id := PollIdentity(url);
      PollStep(st, url).reply == Render(st.log, Pending(st, id))
  {
    var id := PollIdentity(url);
    BatchRendersSelected(st.log, CursorFor(st, id), |st.log|, id);
    assert st.log[..|st.log|] == st.log;
  }

  /** The response body is empty exactly when no message from someone else is pending. */
  lemma PollReplyEmptyIff(st: RelayState, url: string)
    requires Inv(st)
    ensures var id := PollIdentity(url);
      PollStep(st, url).reply == "" <==>
      forall i :: CursorFor(st, id) <= i < |st.log| ==> st.log[i].senderId == id
  {
    PollRepliesPending(st, url);
    var id := PollIdentity(url);
    var p := Pending(st, id);
    SelectedIsUnseenForeign(st.log, CursorFor(st, id), id);
    if p != [] {
      assert st.log[p[0]].senderId != id;
    }
  }

  /**
   * A poll leaves the log alone, keeps every existing session's identity,
   * never moves a cursor backwards, and puts the cursor of the session it
   * used at the end of the log.
   */
  lemma PollAdvancesCursor(st: RelayState, url: string)
    requires Inv(st)
    ensures var o, r := PollStep(st, url), Resolve(st.sessions, PollIdentity(url));
      && o.state.log == st.log
      && |o.state.sessions| == |r.sessions|
      && o.state.sessions[r.index].lastSeenIndex == |st.log|
      && (forall k :: 0 <= k < |st.sessions| ==>
            o.state.sessions[k].clientId == st.sessions[k].clientId &&
            st.sessions[k].lastSeenIndex <= o.state.sessions[k].lastSeenIndex <= |st.log|)
      && (forall k :: 0 <= k < |o.state.sessions| && k != r.index ==> o.state.sessions[k] == r.sessions[k])
  {
    var r := Resolve(st.sessions, PollIdentity(url));
    forall k | 0 <= k < |st.sessions|
      ensures r.sessions[k] == st.sessions[k]
    {
      assert r.sessions[..|st.sessions|][k] == r.sessions[k];
    }
  }

  /** A poll keeps the invariant. */
  lemma PollPreservesInv(st: RelayState, url: string)
    requires Inv(st)
    ensures Inv(PollStep(st, url).state)
  {
    var id := PollIdentity(url);
    ResolvePreservesInv(st, id);
    PollAdvancesCursor(st, url);
  }

  /** A second poll with no request in between returns nothing and changes nothing. */
  lemma PollTwiceIsSilent(st: RelayState, url: string)
    requires Inv(st)
    ensures var first := PollStep(st, url).state;
      Inv(first) && PollStep(first, url) == PollOutcome(first, "")
  {
    PollPreservesInv(st, url);
    var id := PollIdentity(url);
    ResolveAgain(st.sessions, id, |st.log|);
  }

  /** Splitting the scanned range at `mid` splits the selection, losing and repeating nothing. */
  lemma {:induction false} SelectedSplit(log: seq<Message>, from: nat, mid: nat, id: string)
    requires from <= mid <= |log|
    ensures Selected(log[..mid], from, id) + Selected(log, mid, id) == Selected(log, from, id)
    decreases |log|
  {
    if mid == |log| {
      assert log[..mid] == log;
    } else {
      var last := |log| - 1;
      var init := log[..last];
      var tail := if log[last].senderId != id then [last] else [];
      SelectedSplit(init, from, mid, id);
      assert init[..mid] == log[..mid];
      calc {
        Selected(log[..mid], from, id) + Selected(log, mid, id);
        Selected(init[..mid], from, id) + (Selected(init, mid, id) + tail);
        (Selected(init[..mid], from, id) + Selected(init, mid, id)) + tail;
        Selected(init, from, id) + tail;
        Selected(log, from, id);
      }
    }
  }

  /**
   * No loss, no duplication across polls: a poll, then any number of
   * publishes, then a second poll by the same identity together deliver
   * every message from the first cursor to the new end of the log that the
   * identity did not send, each exactly once and in log order.
   */
  lemma PollsDeliverEachMessageOnce(st: RelayState, url: string, bodies: seq<string>)
    requires Inv(st)
    ensures var id, first := PollIdentity(url), PollStep(st, url).state;
      Inv(first) &&
      var later := PublishAll(first, bodies);
      Pending(st, id) + Pending(later, id) == Selected(later.log, CursorFor(st, id), id)
  {
    PollPreservesInv(st, url);
    var id := PollIdentity(url);
    var first := PollStep(st, url).state;
    var later := PublishAll(first, bodies);
    ResolveAgain(st.sessions, id, |st.log|);
    assert CursorFor(later, id) == |st.log|;
    var r := Resolve(st.sessions, id);
    assert CursorFor(st, id) <= |st.log| by {
      ResolvePreservesInv(st, id);
    }
    assert later.log[..|st.log|] == st.log;
    SelectedSplit(later.log, CursorFor(st, id), |st.log|, id);
  }

  /**
   * When the registry is full every new identity is served through session
   * 0 and moves its cursor. If a message from someone else is pending for
   * the owner of session 0, a poll by a new identity makes the owner's next
   * poll come back empty: that message is never delivered to the owner.
   */
  lemma FullRegistryLosesMessages(st: RelayState, newcomerUrl: string, ownerUrl: string)
    requires Inv(st) && |st.sessions| == MaxClients
    requires PollIdentity(ownerUrl) == st.sessions[0].clientId
    requires forall k :: 0 <= k < |st.sessions| ==> st.sessions[k].clientId != PollIdentity(newcomerUrl)
    requires exists i :: st.sessions[0].lastSeenIndex <= i < |st.log| && st.log[i].senderId != st.sessions[0].clientId
    ensures PollStep(st, ownerUrl).reply != ""
    ensures var after := PollStep(st, newcomerUrl).state;
      Inv(after) && PollStep(after, ownerUrl).reply == ""
  {
    var owner := st.sessions[0].clientId;
    ResolveKnown(st.sessions, owner, 0);
    PollReplyEmptyIff(st, ownerUrl);
    ResolveUnknown(st.sessions, PollIdentity(newcomerUrl));
    PollPreservesInv(st, newcomerUrl);
    var after := PollStep(st, newcomerUrl).state;
    assert after.sessions[0].clientId == owner && after.sessions[0].lastSeenIndex == |st.log|;
    ResolveKnown(after.sessions, owner, 0);
    PollReplyEmptyIff(after, ownerUrl);
  }
}
