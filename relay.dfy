/**
 * The server's global state as an object: `message_store` and `clients` are
 * fixed-size arrays (server.c:31, 34) whose used prefixes are counted by
 * `total_messages` and `total_clients` (server.c:32, 35). The request
 * handlers update them in place, and each is proved to produce exactly
 * the state and reply that ChatState specifies.
 */
module Server {
  import opened Wrappers
  import opened CStrings
  import opened UrlDecoding
  import opened Params
  import opened ChatState

  class Relay {
    var messageStore: array<Message>
    var totalMessages: nat
    var clients: array<Session>
    var totalClients: nat

    /** Both arrays at their fixed sizes, both counters within them, and ChatState.Inv of the used parts. */
    ghost predicate Valid()
      reads this, messageStore, clients
    {
      messageStore.Length == MaxStoredMsgs && clients.Length == MaxClients &&
      totalMessages <= messageStore.Length && totalClients <= clients.Length &&
      Inv(State())
    }

    /** The used parts of the two arrays. */
    function State(): RelayState
      reads this, messageStore, clients
      requires totalMessages <= messageStore.Length && totalClients <= clients.Length
    {
      RelayState(messageStore[..totalMessages], clients[..totalClients])
    }

    /** The zero-initialised globals: no messages, no sessions. */
    constructor ()
      ensures Valid() && fresh(messageStore) && fresh(clients)
      ensures State() == Initial
    {
      messageStore := new Message[MaxStoredMsgs](_ => Message("", ""));
      clients := new Session[MaxClients](_ => Session("", 0));
      totalMessages, totalClients := 0, 0;
    }

    /**
     * `get_client_index` (server.c:81-94): a linear search for the first
     * session of `clientId`; failing that, a new session in the next free
     * slot with cursor 0, or index 0 when every slot is taken.
     */
    method GetClientIndex(clientId: string) returns (idx: nat)
      requires Valid()
      modifies this`totalClients, clients
      ensures Valid()
      ensures Resolve(old(State()).sessions, clientId) == Resolution(idx, State().sessions)
      ensures State().log == old(State()).log
      ensures idx < MaxClients
    {
      ghost var before := State();
      var i := 0;
      while i < totalClients
        invariant i <= totalClients
        invariant FindSessionFrom(before.sessions, clientId, i) == FindSessionFrom(before.sessions, clientId, 0)
      {
        if clients[i].clientId == clientId {
          return i;
        }
        i := i + 1;
      }
      ResolvePreservesInv(before, clientId);
      if totalClients < MaxClients {
        clients[totalClients] := Session(clientId, 0);
        idx := totalClients;
        totalClients := totalClients + 1;
        assert State().sessions == before.sessions + [Session(clientId, 0)];
        return;
      }
      return 0;
    }

    /**
     * `handle_post` (server.c:98-113): extract the raw `message` and
     * `client_id`, and if the raw message is not empty and the store has
     * room, decode both into the next slot and count it.
     */
    method HandlePost(body: string) returns (stored: bool)
      requires Valid()
      modifies this`totalMessages, messageStore
      ensures Valid()
      ensures PublishStep(old(State()), body) == PublishOutcome(State(), stored)
    {
      ghost var before := State();
      var rawMsg := GetParamValue(body, "message");
      var rawId := GetParamValue(body, "client_id");
      stored := |rawMsg| > 0 && totalMessages < MaxStoredMsgs;
      if stored {
        var msg := UrlDecode(rawMsg);
        var senderId := UrlDecode(rawId);
        messageStore[totalMessages] := Message(AsCString(msg), AsCString(senderId));
        totalMessages := totalMessages + 1;
        assert State().log == before.log + [Message(AsCString(msg), AsCString(senderId))];
      }
      PublishPreservesInv(before, body);
    }

    /**
     * `handle_get` (server.c:123-159): resolve the poller's identity, find or
     * create its session, collect what it has not seen, and move the cursor
     * to the end of the store.
     */
    method HandleGet(url: string) returns (reply: string)
      requires Valid()
      modifies this`totalClients, clients
      ensures Valid()
      ensures PollStep(old(State()), url) == PollOutcome(State(), reply)
    {
      ghost var before := State();
      var cleanId := PollerIdentity(url);
      var clientIdx := GetClientIndex(cleanId);
      var startIdx := clients[clientIdx].lastSeenIndex;
      reply := CollectUnseen(startIdx, cleanId);
      clients[clientIdx] := clients[clientIdx].(lastSeenIndex := totalMessages);
      PollPreservesInv(before, url);
    }

    /**
     * The identity part of `handle_get` (server.c:127-134): the decoded
     * `client_id` after the first `?`, or `"unknown"` without a `?`.
     */
    method PollerIdentity(url: string) returns (cleanId: string)
      ensures cleanId == PollIdentity(url)
    {
      var queryStart := FindChar(url, '?', 0);
      if queryStart.None? {
        cleanId := "unknown";
        return;
      }
      var q := queryStart.value;
      var rawId := GetParamValue(url[q + 1..], "client_id");
      var decoded := UrlDecode(rawId);
      cleanId := AsCString(decoded);
      assert '?' !in url[..q] by {
        forall j | 0 <= j < q ensures url[..q][j] != '?' {
          assert url[..q][j] == url[j];
        }
      }
      PollIdentityWithQuery(url, q);
    }

    /**
     * The collecting loop of `handle_get` (server.c:139-156): every stored
     * message from `startIdx` on whose sender is not `cleanId`, each followed
     * by a newline.
     */
    method CollectUnseen(startIdx: nat, cleanId: string) returns (reply: string)
      requires Valid()
      requires startIdx <= totalMessages
      ensures reply == Batch(State().log, startIdx, totalMessages, cleanId)
    {
      reply := "";
      var i := startIdx;
      while i < totalMessages
        invariant startIdx <= i <= totalMessages
        invariant reply == Batch(State().log, startIdx, i, cleanId)
      {
        if messageStore[i].senderId != cleanId {
          reply := reply + messageStore[i].msg + "\n";
        }
        i := i + 1;
      }
    }
  }
}
