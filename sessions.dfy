/**
 * The per-client conversation memory: a FIFO of (user message, translation) turns
 * whose bound is the live `context_num`, and the chat message list built from it.
 */
module Sessions {
  /** One remembered turn: what was sent as the user message, and the translation kept. */
  type Turn = (string, string)

  /** A client's context: its turns, oldest first, and the bound last applied. */
  datatype Context = Context(history: seq<Turn>, maxLen: int)

  /** The entry std::map::operator[] inserts for a client seen for the first time. */
  const EmptyContext: Context := Context([], 0)

  const SizeRange: int := 0x1_0000_0000_0000_0000

  /** `history.size() > max_len` compares an unsigned 64-bit size with an int, so the int
      is converted to size_t: a negative bound wraps to a huge one and trims nothing. */
  function Bound(maxLen: int): (b: nat)
    ensures 0 <= maxLen < SizeRange ==> b == maxLen
    ensures -SizeRange <= maxLen < 0 ==> b == SizeRange + maxLen
  {
    maxLen % SizeRange
  }

  /** The newest `n` turns (all of them when there are at most `n`). */
  function Newest(h: seq<Turn>, n: nat): seq<Turn> {
    if |h| <= n then h else h[|h| - n..]
  }

  /** Newest keeps exactly min(|h|, n) turns, and they are the last ones of `h`, in order. */
  lemma NewestSuffix(h: seq<Turn>, n: nat)
    ensures |Newest(h, n)| == if |h| <= n then |h| else n
    ensures forall k :: 0 <= k < |Newest(h, n)| ==> Newest(h, n)[k] == h[|h| - |Newest(h, n)| + k]
  {
  }

  /** Trimming before an append does not change what remains after trimming again: the
      front pops before the request leave the stored history as if only the final trim
      had happened. */
  lemma NewestAppend(h: seq<Turn>, t: Turn, n: nat)
    ensures Newest(Newest(h, n) + [t], n) == Newest(h + [t], n)
  {
    if |h| > n {
      var k := Newest(h, n);
      if n > 0 {
        assert Newest(k + [t], n) == (k + [t])[1..];
        assert (k + [t])[1..] == h[|h| - n + 1..] + [t];
        assert (h + [t])[|h| + 1 - n..] == h[|h| - n + 1..] + [t];
      } else {
        assert Newest(k + [t], 0) == [];
      }
    }
  }

  /** After a turn is appended and the history trimmed to a positive bound, the turn is
      the newest one and the newest `n - 1` old turns come before it. */
  lemma NewestLast(h: seq<Turn>, t: Turn, n: nat)
    requires n > 0
    ensures |Newest(h + [t], n)| <= n
    ensures Newest(h + [t], n)[|Newest(h + [t], n)| - 1] == t
    ensures Newest(h + [t], n)[..|Newest(h + [t], n)| - 1] == Newest(h, n - 1)
  {
    var k := Newest(h + [t], n);
    NewestSuffix(h + [t], n);
    NewestSuffix(h, n - 1);
    assert k[..|k| - 1] == Newest(h, n - 1);
  }

  /** Trimming twice is trimming once. */
  lemma NewestIdempotent(h: seq<Turn>, n: nat)
    ensures Newest(Newest(h, n), n) == Newest(h, n)
  {
  }

  /** `while (history.size() > max_len) history.pop_front();` */
  method TrimFront(history: seq<Turn>, maxLen: int) returns (h: seq<Turn>)
    ensures h == Newest(history, Bound(maxLen))
  {
    h := history;
    while |h| > Bound(maxLen)
      invariant |h| <= |history|
      invariant h == history[|history| - |h|..]
      invariant |h| >= Bound(maxLen) || h == history
      decreases |h|
    {
      h := h[1..];
    }
  }

  /** Who speaks in a chat message. */
  datatype Role = System | User | Assistant

  datatype Message = Message(role: Role, content: string)

  /** Every remembered turn as a user message followed by its assistant reply, oldest
      first. */
  function Pairs(history: seq<Turn>): (r: seq<Message>)
    ensures |r| == 2 * |history|
  {
    if history == [] then []
    else Pairs(history[..|history| - 1]) + [Message(User, history[|history| - 1].0), Message(Assistant, history[|history| - 1].1)]
  }

  /** The messages of one request: the system prompt, the remembered turns, then the new
      user message. */
  function Layout(system: string, history: seq<Turn>, user: string): seq<Message> {
    [Message(System, system)] + Pairs(history) + [Message(User, user)]
  }

  /** Turn j of the history becomes messages 2j + 1 and 2j + 2 of the request. */
  lemma {:induction false} PairsPlace(history: seq<Turn>)
    ensures forall j :: 0 <= j < |history| ==>
              Pairs(history)[2 * j] == Message(User, history[j].0) && Pairs(history)[2 * j + 1] == Message(Assistant, history[j].1)
  {
    if history != [] {
      PairsPlace(history[..|history| - 1]);
    }
  }

  /** The request holds 2|history| + 2 messages: the system message first, the user
      message last, and in between each turn as a user message followed by its reply,
      oldest first. */
  lemma LayoutShape(system: string, history: seq<Turn>, user: string)
    ensures |Layout(system, history, user)| == 2 * |history| + 2
    ensures Layout(system, history, user)[0] == Message(System, system)
    ensures forall j :: 0 <= j < |history| ==>
              Layout(system, history, user)[2 * j + 1] == Message(User, history[j].0)
              && Layout(system, history, user)[2 * j + 2] == Message(Assistant, history[j].1)
    ensures Layout(system, history, user)[2 * |history| + 1] == Message(User, user)
  {
    PairsPlace(history);
  }

  /** The building loop: the system message, a user/assistant pair per turn, the user
      message. */
  method LayMessages(system: string, history: seq<Turn>, user: string) returns (msgs: seq<Message>)
    ensures msgs == Layout(system, history, user)
  {
    msgs := [Message(System, system)];
    for i := 0 to |history|
      invariant msgs == [Message(System, system)] + Pairs(history[..i])
    {
      assert history[..i + 1][..i] == history[..i];
      msgs := msgs + [Message(User, history[i].0), Message(Assistant, history[i].1)];
    }
    assert history[..|history|] == history;
    msgs := msgs + [Message(User, user)];
  }

  /** `history.push_back(turn)` followed by the pop-front loop. */
  method Remember(ctx: Context, turn: Turn) returns (c: Context)
    ensures c == Context(Newest(ctx.history + [turn], Bound(ctx.maxLen)), ctx.maxLen)
  {
    var h := TrimFront(ctx.history + [turn], ctx.maxLen);
    c := Context(h, ctx.maxLen);
  }
}
