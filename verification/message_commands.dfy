/** The text commands of src/commands/message_commands.rs: how a channel
    message is classified, in the order the handler tries the cases, and what
    each case extracts from the text. Regular-expression matching and
    `str` operations are the ASCII versions of the Text module. */
module MessageCommands {
  import opened Wrappers
  import opened Ints
  import opened Text
  import opened EditDistance
  import opened FuzzyIndex
  import opened Mentions
  import opened Message
  import opened Room
  import opened Actions

  /** Which branch of `handle` a message takes. */
  datatype Route =
    | RegisterRoute
    | IgnoreRoute
    | TryRoute
    | FindRoute
    | QueueRoute
    | AddQueueRoute
    | AddWordsRoute
    | SkipRoute
    | NoCommand

  /** The reply to an `!addwords` payload outside `[a-zA-Z\s,]+`. */
  const AddWordsFormatError: string := "入力入力形式が正しくありません。^!addwords [a-zA-Z\\s,]+$"

  /** `^[a-zA-Z\-\s]+$`: a proposed word. */
  predicate TryPattern(s: string) {
    |s| > 0 && forall i :: 0 <= i < |s| ==> IsAsciiLetter(s[i]) || s[i] == '-' || IsWhitespace(s[i])
  }

  /** `^[a-zA-Z\s,]+$`: the payload of `!addwords`. */
  predicate AddWordsPattern(s: string) {
    |s| > 0 && forall i :: 0 <= i < |s| ==> IsAsciiLetter(s[i]) || s[i] == ',' || IsWhitespace(s[i])
  }

  /** `handle`: a mention of the bot registers the channel; otherwise only
      registered channels are served, and the first case that fits decides. */
  function RouteOf(content: string, mentionsMe: bool, roomKnown: bool): (r: Route)
    ensures mentionsMe <==> r == RegisterRoute
    ensures r == IgnoreRoute <==> !mentionsMe && !roomKnown
    ensures r == TryRoute <==> !mentionsMe && roomKnown && TryPattern(content)
    ensures r == FindRoute ==> StartsWith(content, "?")
    ensures r == QueueRoute ==> StartsWith(content, "!queue")
    ensures r == AddQueueRoute ==> StartsWith(content, "!addqueue")
    ensures r == AddWordsRoute ==> StartsWith(content, "!addwords")
    ensures r == SkipRoute ==> StartsWith(content, "!skip")
  {
    if mentionsMe then RegisterRoute
    else if !roomKnown then IgnoreRoute
    else if TryPattern(content) then TryRoute
    else if StartsWith(content, "?") then FindRoute
    else if StartsWith(content, "!queue") then QueueRoute
    else if StartsWith(content, "!addqueue") then AddQueueRoute
    else if StartsWith(content, "!addwords") then AddWordsRoute
    else if StartsWith(content, "!skip") then SkipRoute
    else NoCommand
  }

  /** Text starting with `!` is no proposal and no find; which command it is
      then depends on the letters after the `!`. */
  lemma CommandRoute(content: string)
    requires |content| > 0 && content[0] == '!'
    ensures !TryPattern(content) && !StartsWith(content, "?")
  {
    assert !(IsAsciiLetter(content[0]) || content[0] == '-' || IsWhitespace(content[0]));
  }

  /** Each command prefix takes its own branch; the longer `!addqueue` and
      `!addwords` are not mistaken for one another or for `!queue`. */
  lemma RouteCommands(content: string)
    ensures StartsWith(content, "!queue") ==> RouteOf(content, false, true) == QueueRoute
    ensures StartsWith(content, "!addqueue") ==> RouteOf(content, false, true) == AddQueueRoute
    ensures StartsWith(content, "!addwords") ==> RouteOf(content, false, true) == AddWordsRoute
    ensures StartsWith(content, "!skip") ==> RouteOf(content, false, true) == SkipRoute
  {
    if |content| > 1 && content[0] == '!' {
      CommandRoute(content);
      if content[1] == 'a' && |content| > 4 {
        assert !StartsWith(content, "!queue") by {
          assert "!queue"[1] != content[1];
        }
        if content[4] == 'w' {
          assert !StartsWith(content, "!addqueue") by {
            assert "!addqueue"[4] != content[4];
          }
        }
      } else if content[1] == 's' {
        assert !StartsWith(content, "!queue") by {
          assert "!queue"[1] != content[1];
        }
        assert !StartsWith(content, "!addqueue") && !StartsWith(content, "!addwords") by {
          assert "!addqueue"[1] != content[1] && "!addwords"[1] != content[1];
        }
      }
    }
  }

  // ---------------------------------------------------------------------------
  // What each branch reads from the text
  // ---------------------------------------------------------------------------

  /** The word a proposal records: the message lower-cased. It still matches
      the proposal pattern. */
  function ProposedWord(content: string): (w: string)
    requires TryPattern(content)
    ensures TryPattern(w) && NoUpper(w) && |w| == |content|
  {
    ToLower(content)
  }

  /** `?`: the rest of the message, trimmed, searched with the default
      options. */
  function FindQuery(content: string): (q: string)
    requires StartsWith(content, "?")
    ensures q == [] || (!IsWhitespace(q[0]) && !IsWhitespace(q[|q| - 1]))
    ensures |q| < |content|
  {
    Trim(content[1..])
  }

  /** The `?` branch's request: the trimmed query, searched both within an
      edit distance of a quarter of its UTF-8 length and as a substring. */
  function FindCommandRequest(content: string): (r: (string, SearchOptions))
    requires StartsWith(content, "?")
    ensures r.0 == FindQuery(content)
    ensures r.1.fuzzyDistance == Some(Utf8Length(r.0) / 4)
    ensures r.1.matchMode == Some(Substring)
  {
    var q := FindQuery(content);
    (q, DefaultOptions(q))
  }

  /** A word as `!addwords` stores it: non-empty, trimmed, no upper case. */
  predicate CleanWord(w: string) {
    && |w| > 0 && !IsWhitespace(w[0]) && !IsWhitespace(w[|w| - 1])
    && NoUpper(w)
  }

  /** A piece after `trim` and `to_lowercase`: clean unless it is empty. */
  function CleanPiece(p: string): (w: string)
    ensures w == ToLower(Trim(p))
    ensures |w| > 0 ==> CleanWord(w)
  {
    var t := Trim(p);
    var w := ToLower(t);
    if |w| > 0 then
      assert !IsWhitespace(t[0]) && !IsWhitespace(t[|t| - 1]);
      w
    else w
  }

  lemma AllClean(head: seq<string>, rest: seq<string>)
    requires forall k :: 0 <= k < |head| ==> CleanWord(head[k])
    requires forall k :: 0 <= k < |rest| ==> CleanWord(rest[k])
    ensures forall k :: 0 <= k < |head + rest| ==> CleanWord((head + rest)[k])
  {
  }

  /** The pieces of the payload, each trimmed and lower-cased, empty ones
      dropped. */
  function CleanWords(parts: seq<string>): (ws: seq<string>)
    ensures |ws| <= |parts|
    ensures forall k :: 0 <= k < |ws| ==> CleanWord(ws[k])
  {
    if |parts| == 0 then []
    else
      var w := CleanPiece(parts[0]);
      var rest := CleanWords(parts[1..]);
      if |w| == 0 then rest
      else
        AllClean([w], rest);
        [w] + rest
  }

  /** The text after every leading `!addwords`, trimmed. */
  function AddWordsPayload(content: string): (p: string)
    ensures p == [] || (!IsWhitespace(p[0]) && !IsWhitespace(p[|p| - 1]))
  {
    Trim(StripPrefixRepeatedly(content, "!addwords"))
  }

  /** `!addwords`: the payload is checked against `[a-zA-Z\s,]+` and then split
      at commas into clean words; otherwise the reply is the format error. */
  function AddWordsRequest(content: string): (r: Result<seq<string>, string>)
    ensures r.Ok? <==> AddWordsPattern(AddWordsPayload(content))
    ensures r.Err? ==> r.error == AddWordsFormatError
    ensures r.Ok? ==> forall k :: 0 <= k < |r.value| ==> CleanWord(r.value[k])
  {
    var payload := AddWordsPayload(content);
    if AddWordsPattern(payload) then Ok(CleanWords(Split(payload, ','))) else Err(AddWordsFormatError)
  }

  /** `parts[1].parse().unwrap_or(1)` after `split_whitespace`, and 1 when there
      is no second token. */
  function SkipCount(content: string): (n: u64)
    ensures var parts := SplitWhitespace(content);
      |parts| > 1 && ParseU64(parts[1]).Some? ==> n == ParseU64(parts[1]).value
    ensures var parts := SplitWhitespace(content);
      |parts| <= 1 || ParseU64(parts[1]).None? ==> n == 1
  {
    var parts := SplitWhitespace(content);
    if |parts| > 1 then ParseU64(parts[1]).GetOr(1) else 1
  }

  // ---------------------------------------------------------------------------
  // Round trips: the text a user types for a command is read back exactly
  // ---------------------------------------------------------------------------

  /** A proposal is already lower-case, so proposing the recorded word again
      records the same word. */
  lemma ProposeIdempotent(content: string)
    requires TryPattern(content)
    ensures RouteOf(ProposedWord(content), false, true) == TryRoute
    ensures ProposedWord(ProposedWord(content)) == ProposedWord(content)
  {
    ToLowerNoop(ProposedWord(content));
  }

  /** `?` followed by a trimmed query finds that query with the default
      options. */
  lemma FindRoundTrip(q: string)
    requires |q| > 0 ==> !IsWhitespace(q[0]) && !IsWhitespace(q[|q| - 1])
    ensures RouteOf("?" + q, false, true) == FindRoute
    ensures FindQuery("?" + q) == q
  {
    var content := "?" + q;
    assert !TryPattern(content) by {
      assert content[0] == '?';
    }
    assert content[1..] == q;
    TrimNoop(q);
  }

  /** `?` with a trimmed query runs the same search a proposal's similar
      words come from: on a valid index, exactly the stored words within a
      quarter of the query's UTF-8 length of it, or containing it. */
  lemma FindCommandResults(room: RoomState, q: string, stored: Option<Index>, w: string)
    requires |q| > 0 ==> !IsWhitespace(q[0]) && !IsWhitespace(q[|q| - 1])
    requires ValidIndex(GetIndexOrNew(room, stored).1)
    ensures var ix := GetIndexOrNew(room, stored).1;
      var (query, options) := FindCommandRequest("?" + q);
      && query == q
      && FindWords(room, query, options, stored).1 == DefaultFind(ix, q)
      && (w in FindWords(room, query, options, stored).1 <==>
          w in IndexWords(ix) && (Dist(q, w) <= Utf8Length(q) / 4 || Contains(w, q)))
  {
    FindRoundTrip(q);
    DefaultFindMembers(GetIndexOrNew(room, stored).1, q, w);
  }

  /** `!queue` followed by mentions separated by spaces sets exactly those
      users, in order. */
  lemma QueueRoundTrip(ids: seq<u64>)
    ensures RouteOf("!queue " + MentionList(ids, " "), false, true) == QueueRoute
    ensures ParseMentions("!queue " + MentionList(ids, " ")) == ids
  {
    RouteCommands("!queue " + MentionList(ids, " "));
    ParsePlainPrefix("!queue ", MentionList(ids, " "));
    ParseMentionListAlone(ids, " ");
  }

  /** `!addqueue` with mentions adds exactly those users, in order. */
  lemma AddQueueRoundTrip(ids: seq<u64>)
    ensures RouteOf("!addqueue " + MentionList(ids, " "), false, true) == AddQueueRoute
    ensures ParseMentions("!addqueue " + MentionList(ids, " ")) == ids
  {
    RouteCommands("!addqueue " + MentionList(ids, " "));
    ParsePlainPrefix("!addqueue ", MentionList(ids, " "));
    ParseMentionListAlone(ids, " ");
  }

  /** `!skip n` skips `n` turns for every `u64` value `n`. */
  lemma SkipRoundTrip(n: u64)
    ensures RouteOf("!skip " + DecimalString(n), false, true) == SkipRoute
    ensures SkipCount("!skip " + DecimalString(n)) == n
  {
    var d := DecimalString(n);
    var content := "!skip " + d;
    RouteCommands(content);
    assert NoWhitespace(d) && NoWhitespace("!skip");
    assert Join(["!skip", d], " ") == content;
    SplitWhitespaceJoin(["!skip", d]);
    ParseDecimal(n);
  }

  /** A bare `!skip` skips one turn. */
  lemma SkipDefault()
    ensures RouteOf("!skip", false, true) == SkipRoute
    ensures SkipCount("!skip") == 1
  {
    RouteCommands("!skip");
    assert NoWhitespace("!skip");
    assert Join(["!skip"], " ") == "!skip";
    SplitWhitespaceJoin(["!skip"]);
  }

  /** A lower-case word: what a user types into `!addwords`. */
  predicate LowerWord(w: string) {
    |w| > 0 && forall i :: 0 <= i < |w| ==> IsAsciiLower(w[i])
  }

  /** All characters lower-case letters or commas, with a letter at each end. */
  predicate CommaJoined(s: string) {
    && |s| > 0 && IsAsciiLower(s[0]) && IsAsciiLower(s[|s| - 1])
    && forall i :: 0 <= i < |s| ==> IsAsciiLower(s[i]) || s[i] == ','
  }

  lemma {:induction false} JoinCommaJoined(ws: seq<string>)
    requires |ws| > 0
    requires forall k :: 0 <= k < |ws| ==> LowerWord(ws[k])
    ensures CommaJoined(Join(ws, ","))
  {
    assert LowerWord(ws[0]);
    if |ws| > 1 {
      JoinCommaJoined(ws[1..]);
      CommaJoinStep(ws[0], Join(ws[1..], ","));
    }
  }

  lemma CommaJoinStep(w: string, rest: string)
    requires LowerWord(w) && CommaJoined(rest)
    ensures CommaJoined(w + "," + rest)
  {
    var s := w + "," + rest;
    forall i | 0 <= i < |s|
      ensures IsAsciiLower(s[i]) || s[i] == ','
    {
      if i < |w| {
        assert s[i] == w[i];
      } else if i > |w| {
        assert s[i] == rest[i - |w| - 1];
      }
    }
  }

  /** A lower-case word is its own trimmed, lower-cased form. */
  lemma LowerWordClean(w: string)
    requires LowerWord(w)
    ensures CleanPiece(w) == w
  {
    TrimNoop(w);
    ToLowerNoop(w);
  }

  /** Cleaning a list of pieces starting with a lower-case word keeps that
      word in front of the cleaned remainder. */
  lemma CleanWordsCons(w: string, rest: seq<string>)
    requires LowerWord(w)
    ensures CleanWords([w] + rest) == [w] + CleanWords(rest)
  {
    var parts := [w] + rest;
    assert parts[0] == w && parts[1..] == rest;
    LowerWordClean(w);
  }

  /** The suffix of a list of lower-case words is one too. */
  lemma LowerWordsTail(ws: seq<string>)
    requires |ws| > 0
    requires forall k :: 0 <= k < |ws| ==> LowerWord(ws[k])
    ensures LowerWord(ws[0])
    ensures forall k :: 0 <= k < |ws[1..]| ==> LowerWord(ws[1..][k])
  {
    assert forall k :: 0 <= k < |ws[1..]| ==> ws[1..][k] == ws[k + 1];
  }

  /** Cleaning pieces that are already lower-case words keeps them. */
  lemma {:induction false} CleanWordsNoop(ws: seq<string>)
    requires forall k :: 0 <= k < |ws| ==> LowerWord(ws[k])
    ensures CleanWords(ws) == ws
  {
    if |ws| > 0 {
      LowerWordsTail(ws);
      CleanWordsNoop(ws[1..]);
      CleanWordsCons(ws[0], ws[1..]);
      assert ws == [ws[0]] + ws[1..];
    }
  }

  /** The payload of `!addwords ` followed by `t` is `t` when `t` is already
      trimmed and does not itself start with `!addwords`. */
  lemma AddWordsPayloadOf(t: string)
    requires |t| > 0 && !IsWhitespace(t[0]) && !IsWhitespace(t[|t| - 1])
    ensures AddWordsPayload("!addwords " + t) == t
  {
    var content := "!addwords " + t;
    assert StripPrefixRepeatedly(content, "!addwords") == " " + t by {
      assert content[9..] == " " + t;
      assert !StartsWith(" " + t, "!addwords") by {
        assert (" " + t)[0] != "!addwords"[0];
      }
    }
    TrimAfterSpace(t);
  }

  /** Lower-case words joined with commas pass the payload check and are the
      whole payload. */
  lemma JoinedPayload(ws: seq<string>)
    requires |ws| > 0
    requires forall k :: 0 <= k < |ws| ==> LowerWord(ws[k])
    ensures AddWordsPattern(Join(ws, ","))
    ensures AddWordsPayload("!addwords " + Join(ws, ",")) == Join(ws, ",")
  {
    JoinCommaJoined(ws);
    CommaJoinedPayload(Join(ws, ","));
  }

  lemma CommaJoinedPayload(s: string)
    requires CommaJoined(s)
    ensures AddWordsPattern(s)
    ensures AddWordsPayload("!addwords " + s) == s
  {
    assert !IsWhitespace(s[0]) && !IsWhitespace(s[|s| - 1]);
    AddWordsPayloadOf(s);
  }

  /** Splitting lower-case words joined with commas and cleaning the pieces
      gives the words back. */
  lemma SplitJoinedClean(ws: seq<string>)
    requires |ws| > 0
    requires forall k :: 0 <= k < |ws| ==> LowerWord(ws[k])
    ensures CleanWords(Split(Join(ws, ","), ',')) == ws
  {
    forall k | 0 <= k < |ws|
      ensures ',' !in ws[k]
    {
      assert LowerWord(ws[k]);
    }
    SplitJoin(ws, ',');
    CleanWordsNoop(ws);
  }

  /** `!addwords` followed by lower-case words joined with commas adds
      exactly those words, in order. */
  lemma AddWordsRoundTrip(ws: seq<string>)
    requires |ws| > 0
    requires forall k :: 0 <= k < |ws| ==> LowerWord(ws[k])
    ensures RouteOf("!addwords " + Join(ws, ","), false, true) == AddWordsRoute
    ensures AddWordsRequest("!addwords " + Join(ws, ",")) == Ok(ws)
  {
    var joined := Join(ws, ",");
    assert RouteOf("!addwords " + joined, false, true) == AddWordsRoute by {
      RouteCommands("!addwords " + joined);
    }
    assert AddWordsPattern(AddWordsPayload("!addwords " + joined))
        && AddWordsPayload("!addwords " + joined) == joined by {
      JoinedPayload(ws);
    }
    assert CleanWords(Split(joined, ',')) == ws by {
      SplitJoinedClean(ws);
    }
  }

  /** The payload check rejects any character outside letters, whitespace
      and commas, such as a digit, and the reply is the format error. */
  lemma AddWordsRejects(t: string, i: nat)
    requires |t| > 0 && !IsWhitespace(t[0]) && !IsWhitespace(t[|t| - 1])
    requires i < |t| && !IsAsciiLetter(t[i]) && t[i] != ',' && !IsWhitespace(t[i])
    ensures RouteOf("!addwords " + t, false, true) == AddWordsRoute
    ensures AddWordsRequest("!addwords " + t) == Err(AddWordsFormatError)
  {
    assert RouteOf("!addwords " + t, false, true) == AddWordsRoute by {
      RouteCommands("!addwords " + t);
    }
    assert AddWordsPayload("!addwords " + t) == t by {
      AddWordsPayloadOf(t);
    }
    assert !AddWordsPattern(t) by {
      assert !(IsAsciiLetter(t[i]) || t[i] == ',' || IsWhitespace(t[i]));
    }
  }

  // ---------------------------------------------------------------------------
  // The handler's own steps
  // ---------------------------------------------------------------------------

  /** The mention branch of `handle`: create the room when it is new, and
      say which of the two happened. */
  function RegisterRoom(reg: Registry, id: u64): (r: (Registry, string))
    ensures r.0 == CreateRoom(reg, id)
    ensures r.1 == RegisterMessage(HasRoom(reg, id))
  {
    (CreateRoom(reg, id), RegisterMessage(HasRoom(reg, id)))
  }

  /** Registering twice: the second time nothing changes and the reply says
      the channel was already registered. */
  lemma RegisterTwice(reg: Registry, id: u64)
    ensures var (once, _) := RegisterRoom(reg, id);
      RegisterRoom(once, id) == (once, AlreadyRegisteredText)
  {
  }

  /** The `!addqueue` loop: `add_queue` once per mentioned user, in order,
      each with its own reply. */
  function AddQueueAll(room: RoomState, users: seq<u64>): (r: (RoomState, seq<string>))
    ensures r.0 == room.(queue := room.queue + users)
    ensures |r.1| == |users|
    ensures forall k :: 0 <= k < |users| ==> r.1[k] == AddQueueMessage(room.queue + users[..k], users[k])
  {
    if |users| == 0 then (room, [])
    else
      var init, last := users[..|users| - 1], users[|users| - 1];
      var (before, replies) := AddQueueAll(room, init);
      var (after, reply) := AddQueue(before, last);
      assert init + [last] == users;
      assert forall k :: 0 <= k < |init| ==> users[..k] == init[..k];
      (after, replies + [reply])
  }
}
