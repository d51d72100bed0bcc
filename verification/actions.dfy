/** The game's state transitions, from src/actions.rs, each taken as one
    atomic step on a room: proposing a word, voting on it, the queue commands,
    adding and finding words, and skipping turns. The Discord calls become
    results (the text to post or edit) and file reads become a `stored`
    parameter, as in the Room module. */
module Actions {
  import opened Wrappers
  import opened Ints
  import opened Text
  import opened EditDistance
  import opened FuzzyIndex
  import opened Mentions
  import opened Message
  import opened Room

  // ---------------------------------------------------------------------------
  // Sequences as sets, and rotation
  // ---------------------------------------------------------------------------

  /** No element occurs twice: the sequence stands for a `HashSet`. */
  predicate NoDup<T(==)>(s: seq<T>) {
    forall x :: x in s ==> multiset(s)[x] <= 1
  }

  predicate Disjoint(a: seq<u64>, b: seq<u64>) {
    forall x :: x in a ==> x !in b
  }

  /** `s` with every occurrence of `u` removed, the rest in order. This is both
      `HashSet::remove` and the `filter(|&id| id != user_id)` of `try_word`. */
  function Without(s: seq<u64>, u: u64): seq<u64>
  {
    if |s| == 0 then [] else (if s[0] == u then [] else [s[0]]) + Without(s[1..], u)
  }

  /** What removal keeps: `u` is gone, every other value keeps its number of
      occurrences, and a set stays a set. */
  lemma {:induction false} WithoutCounts(s: seq<u64>, u: u64)
    ensures forall x :: x in Without(s, u) <==> x in s && x != u
    ensures forall x :: x != u ==> multiset(Without(s, u))[x] == multiset(s)[x]
    ensures NoDup(s) ==> NoDup(Without(s, u))
  {
    if |s| > 0 {
      WithoutCounts(s[1..], u);
      assert s == [s[0]] + s[1..];
    }
  }

  /** Removal works element by element: removing from two halves and joining
      the results is removing from the whole, so the order is kept. */
  lemma {:induction false} WithoutAppend(s1: seq<u64>, s2: seq<u64>, u: u64)
    ensures Without(s1 + s2, u) == Without(s1, u) + Without(s2, u)
  {
    if |s1| == 0 {
      assert s1 + s2 == s2;
    } else {
      assert s1 == [s1[0]] + s1[1..];
      WithoutAppend(s1[1..], s2, u);
      WithoutAppendStep(s1[0], s1[1..], s2, u);
    }
  }

  /** The inductive step of `WithoutAppend`: one more element in front. */
  lemma WithoutAppendStep(x: u64, s1: seq<u64>, s2: seq<u64>, u: u64)
    requires Without(s1 + s2, u) == Without(s1, u) + Without(s2, u)
    ensures Without([x] + s1 + s2, u) == Without([x] + s1, u) + Without(s2, u)
  {
    var head := if x == u then [] else [x];
    assert Without([x] + s1 + s2, u) == head + (Without(s1, u) + Without(s2, u)) by {
      assert [x] + s1 + s2 == [x] + (s1 + s2);
      WithoutCons(x, s1 + s2, u);
    }
    assert Without([x] + s1, u) == head + Without(s1, u) by {
      WithoutCons(x, s1, u);
    }
    AppendAssoc(head, Without(s1, u), Without(s2, u));
  }

  lemma AppendAssoc(a: seq<u64>, b: seq<u64>, c: seq<u64>)
    ensures a + (b + c) == (a + b) + c
  {
  }

  /** One step of the removal. */
  lemma WithoutCons(x: u64, s: seq<u64>, u: u64)
    ensures Without([x] + s, u) == (if x == u then [] else [x]) + Without(s, u)
  {
    assert ([x] + s)[0] == x && ([x] + s)[1..] == s;
  }

  /** Removing a value that is not there changes nothing. */
  lemma {:induction false} WithoutAbsent(s: seq<u64>, u: u64)
    requires u !in s
    ensures Without(s, u) == s
  {
    if |s| > 0 {
      assert s[0] in s;
      assert forall x :: x in s[1..] ==> x in s;
      WithoutAbsent(s[1..], u);
      assert s == [s[0]] + s[1..];
    }
  }

  /** `HashSet::insert` */
  function With(s: seq<u64>, u: u64): (r: seq<u64>)
    ensures u in r
    ensures forall x :: x != u ==> multiset(r)[x] == multiset(s)[x]
    ensures NoDup(s) ==> NoDup(r)
  {
    if u in s then s else s + [u]
  }

  /** `rotate_left(k)`: the first `k` elements move to the back, keeping
      their order. */
  function RotateLeft(q: seq<u64>, k: nat): (r: seq<u64>)
    requires k <= |q|
    ensures |r| == |q| && multiset(r) == multiset(q)
    ensures forall i :: 0 <= i < |q| - k ==> r[i] == q[i + k]
    ensures forall i :: |q| - k <= i < |q| ==> r[i] == q[i + k - |q|]
  {
    assert q == q[..k] + q[k..];
    q[k..] + q[..k]
  }

  /** `x % n` and `x / n` are the only remainder and quotient. */
  lemma ModUnique(x: int, n: int, c: int, m: int)
    requires n > 0 && x == n * c + m && 0 <= m < n
    ensures x % n == m && x / n == c
  {
    var c', m' := x / n, x % n;
    assert x == n * c' + m' && 0 <= m' < n;
    if c' > c {
      MulAtLeast(n, c' - c);
      Distrib(n, c, c' - c);
      assert false;
    } else if c' < c {
      MulAtLeast(n, c - c');
      Distrib(n, c', c - c');
      assert false;
    }
  }

  lemma Distrib(n: int, a: int, d: int)
    ensures n * (a + d) == n * a + n * d
  {
  }

  lemma {:induction false} MulAtLeast(n: nat, d: int)
    requires d >= 1
    ensures n * d >= n
  {
    if d > 1 {
      MulAtLeast(n, d - 1);
      Distrib(n, d - 1, 1);
    }
  }

  /** Rotating by `k % n` moves the element at `(i + k) % n` to `i`. */
  lemma RotateMod(q: seq<u64>, k: nat, i: nat)
    requires 0 <= i < |q|
    ensures RotateLeft(q, k % |q|)[i] == q[(i + k) % |q|]
  {
    var n := |q|;
    var c, m := k / n, k % n;
    assert k == n * c + m;
    if i + m < n {
      ModUnique(i + k, n, c, i + m);
    } else {
      Distrib(n, c, 1);
      ModUnique(i + k, n, c + 1, i + m - n);
    }
  }

  /** Taking the remainder once more in the middle changes nothing. */
  lemma ModAddMod(i: nat, a: nat, b: nat, n: nat)
    requires n > 0
    ensures ((i + b) % n + a) % n == (i + a + b) % n
  {
    var c1, m1 := (i + b) / n, (i + b) % n;
    var c2, m2 := (m1 + a) / n, (m1 + a) % n;
    assert i + b == n * c1 + m1;
    assert m1 + a == n * c2 + m2;
    Distrib(n, c1, c2);
    ModUnique(i + a + b, n, c1 + c2, m2);
  }

  // ---------------------------------------------------------------------------
  // Ballots
  // ---------------------------------------------------------------------------

  /** The ballot sets of a vote are sets and never share a user. */
  predicate BallotsOk(v: VoteState) {
    NoDup(v.good) && NoDup(v.bad) && Disjoint(v.good, v.bad)
  }

  /** Step 3 of `vote`: a cancel takes the user out of both sets; a good
      ballot puts the user in the good set and out of the bad one; a bad
      ballot does the reverse. Nobody else's ballot changes, and there is no
      check that the user is in the turn order. */
  function UpdateBallots(v: VoteState, user: u64, good: bool, cancel: bool): (r: VoteState)
    ensures cancel ==> user !in r.good && user !in r.bad
    ensures !cancel && good ==> user in r.good && user !in r.bad
    ensures !cancel && !good ==> user in r.bad && user !in r.good
    ensures forall x :: x != user ==> multiset(r.good)[x] == multiset(v.good)[x]
    ensures forall x :: x != user ==> multiset(r.bad)[x] == multiset(v.bad)[x]
    ensures BallotsOk(v) ==> BallotsOk(r)
    ensures r == v.(good := r.good, bad := r.bad)
  {
    if cancel then
      WithoutCounts(v.good, user);
      WithoutCounts(v.bad, user);
      v.(good := Without(v.good, user), bad := Without(v.bad, user))
    else if good then
      WithoutCounts(v.bad, user);
      v.(good := With(v.good, user), bad := Without(v.bad, user))
    else
      WithoutCounts(v.good, user);
      v.(good := Without(v.good, user), bad := With(v.bad, user))
  }

  /** The threshold of step 4: a strict majority of the turn order, which
      counts the proposer too. */
  function Majority(queueLength: nat): (m: nat)
    ensures 2 * m > queueLength && 2 * (m - 1) <= queueLength
  {
    queueLength / 2 + 1
  }

  // ---------------------------------------------------------------------------
  // Proposing a word
  // ---------------------------------------------------------------------------

  /** The first steps of `try_word`: a new vote on `word` by `user`, asking
      everyone else in the turn order (in order, repeats kept) to vote; the
      turn order itself stays. The result also carries the first status text. */
  function TryWord(room: RoomState, user: u64, word: string): (r: (RoomState, string))
    ensures r.0 == room.(vote := r.0.vote)
    ensures r.0.vote.targetUser == Some(user) && r.0.vote.targetWord == Some(word)
    ensures r.0.vote.voteMessage.None? && r.0.vote.good == [] && r.0.vote.bad == []
    ensures user !in r.0.vote.builder.allUsers
    ensures forall x :: x != user ==> multiset(r.0.vote.builder.allUsers)[x] == multiset(room.queue)[x]
    ensures r.0.vote.builder.allUsers == Without(room.queue, user)
    ensures r.0.vote.builder == InitBuilder(user, word, r.0.vote.builder.allUsers)
    ensures r.1 == Build(r.0.vote.builder)
  {
    var voters := Without(room.queue, user);
    WithoutCounts(room.queue, user);
    var builder := InitBuilder(user, word, voters);
    var room' := room.(vote := VoteState(Some(user), Some(word), None, [], [], builder));
    (room', Build(builder))
  }

  /** `try_word` records the id of the status message once it is posted. */
  function AttachVoteMessage(room: RoomState, messageId: u64): (r: RoomState)
    ensures r.vote.voteMessage == Some(messageId)
    ensures r == room.(vote := room.vote.(voteMessage := Some(messageId)))
  {
    room.(vote := room.vote.(voteMessage := Some(messageId)))
  }

  /** Once a proposal's status message is posted the vote is open: the ballot
      sets are empty, the proposer's own ballots are ignored, and a ballot of
      anyone else is counted. */
  lemma TryWordOpensVote(room: RoomState, user: u64, word: string, messageId: u64,
                         voter: u64, good: bool, cancel: bool, stored: Option<Index>)
    ensures var ready := AttachVoteMessage(TryWord(room, user, word).0, messageId);
      && BallotsOk(ready.vote)
      && Vote(ready, user, good, cancel, stored) == VoteResult(Ignored, ready, None, None)
      && (voter != user ==> Vote(ready, voter, good, cancel, stored).outcome != Ignored)
  {
  }

  /** The voters a proposal asks are the turn order, in order, with the
      proposer taken out, and every one of them when the proposer is not
      queued. */
  lemma TryWordVoters(room: RoomState, user: u64, word: string, before: seq<u64>, after: seq<u64>)
    ensures room.queue == before + [user] + after ==>
      TryWord(room, user, word).0.vote.builder.allUsers == Without(before, user) + Without(after, user)
    ensures user !in room.queue ==> TryWord(room, user, word).0.vote.builder.allUsers == room.queue
  {
    if room.queue == before + [user] + after {
      WithoutAround(before, user, after);
    }
    if user !in room.queue {
      WithoutAbsent(room.queue, user);
    }
  }

  /** Removing a value drops it from between the parts around it. */
  lemma WithoutAround(before: seq<u64>, u: u64, after: seq<u64>)
    ensures Without(before + [u] + after, u) == Without(before, u) + Without(after, u)
  {
    assert Without(before + [u] + after, u) == Without(before + [u], u) + Without(after, u) by {
      WithoutAppend(before + [u], after, u);
    }
    assert Without(before + [u], u) == Without(before, u) by {
      WithoutAppend(before, [u], u);
      WithoutCons(u, [], u);
      assert [u] + [] == [u];
      assert Without(before, u) + [] == Without(before, u);
    }
  }

  /** The similar-words half of the lookups `try_word` starts for `word`: the
      index is loaded if needed, the merged search results are written into
      the room's CURRENT builder, and only then is the word compared with the
      vote's word; the status text is re-rendered only when they agree. */
  function EnrichSimilar(room: RoomState, word: string, stored: Option<Index>): (r: (RoomState, Option<string>))
    ensures var (loaded, ix) := GetIndexOrNew(room, stored);
      && r.0 == loaded.(vote := loaded.vote.(builder := loaded.vote.builder.(likeWords := Some(DefaultFind(ix, word)))))
      && (r.1.Some? <==> room.vote.targetWord == Some(word))
      && (r.1.Some? ==> r.1.value == Build(r.0.vote.builder))
  {
    var (loaded, ix) := GetIndexOrNew(room, stored);
    var builder := loaded.vote.builder.(likeWords := Some(DefaultFind(ix, word)));
    var room' := loaded.(vote := loaded.vote.(builder := builder));
    (room', if room'.vote.targetWord == Some(word) then Some(Build(builder)) else None)
  }

  /** The meaning half of those lookups, with the same order of steps;
      `mean` is the answer of the dictionary service. */
  function EnrichMeaning(room: RoomState, word: string, mean: string): (r: (RoomState, Option<string>))
    ensures r.0 == room.(vote := room.vote.(builder := room.vote.builder.(mean := Some(mean))))
    ensures r.1.Some? <==> room.vote.targetWord == Some(word)
    ensures r.1.Some? ==> r.1.value == Build(r.0.vote.builder)
  {
    var builder := room.vote.builder.(mean := Some(mean));
    var room' := room.(vote := room.vote.(builder := builder));
    (room', if room'.vote.targetWord == Some(word) then Some(Build(builder)) else None)
  }

  /** The input that shows a stale lookup leaking into the next vote: "apple"
      is proposed, then "banana"; the meaning of "apple" arrives late and is
      written into the builder of the vote on "banana", whose next status
      text shows it. */
  lemma StaleMeaningLeaks(room: RoomState, u: u64)
    ensures var r1 := TryWord(TryWord(room, u, "apple").0, u, "banana").0;
      && r1.vote.targetWord == Some("banana")
      && EnrichMeaning(r1, "apple", "a red fruit").0.vote.builder.mean == Some("a red fruit")
      && EnrichMeaning(r1, "apple", "a red fruit").1 == None
  {
  }

  /** The lookup with the word check first: a result for a word that is no
      longer being voted on changes nothing. */
  function EnrichMeaningGuarded(room: RoomState, word: string, mean: string): (r: (RoomState, Option<string>))
    ensures room.vote.targetWord != Some(word) ==> r == (room, None)
    ensures room.vote.targetWord == Some(word) ==> r == EnrichMeaning(room, word, mean)
  {
    if room.vote.targetWord != Some(word) then (room, None) else EnrichMeaning(room, word, mean)
  }

  /** `EnrichSimilar` with the word check first. The index may still be loaded. */
  function EnrichSimilarGuarded(room: RoomState, word: string, stored: Option<Index>): (r: (RoomState, Option<string>))
    ensures room.vote.targetWord != Some(word) ==> r.0.vote == room.vote && r.1.None?
    ensures room.vote.targetWord == Some(word) ==> r == EnrichSimilar(room, word, stored)
  {
    if room.vote.targetWord != Some(word) then (GetIndexOrNew(room, stored).0, None)
    else EnrichSimilar(room, word, stored)
  }

  /** With the guard, a late lookup for an earlier word leaves the current
      vote exactly as it was, whatever order the answers arrive in. */
  lemma GuardedLookupsKeepVote(room: RoomState, word: string, mean: string, stored: Option<Index>)
    requires room.vote.targetWord != Some(word)
    ensures EnrichMeaningGuarded(room, word, mean).0.vote == room.vote
    ensures EnrichSimilarGuarded(room, word, stored).0.vote == room.vote
  {
  }

  // ---------------------------------------------------------------------------
  // Voting
  // ---------------------------------------------------------------------------

  datatype VoteOutcome = Ignored | Accepted | Rejected | Pending

  /** What a ballot did: the new room, the text the status message is edited
      to, and the reply to the voter. */
  datatype VoteResult = VoteResult(outcome: VoteOutcome, room: RoomState, edit: Option<string>, reply: Option<string>)

  /** The ballot is not counted: no vote message yet, no word, or the voter is
      the proposer. */
  predicate VoteIgnored(room: RoomState, user: u64) {
    room.vote.voteMessage.None? || room.vote.targetWord.None? || room.vote.targetUser == Some(user)
  }

  function AcceptedText(goodCount: nat, badCount: nat, word: string, queue: seq<u64>): string {
    "投票終了！結果: YES(" + DecimalString(goodCount) + ") / NO(" + DecimalString(badCount) + ")\n\""
      + word + "\"は可決されました。"
      + (if |queue| > 0 then "\n次は" + Mention(queue[0]) + " の番です。" else "")
  }

  function RejectedText(goodCount: nat, badCount: nat, word: string, queue: seq<u64>): string {
    "投票終了！結果: NO(" + DecimalString(badCount) + ") / YES(" + DecimalString(goodCount) + ")\n\""
      + word + "\"は否決されました。"
      + (if |queue| > 0 then "\n" + Mention(queue[0]) + " は、別の回答をしてください。" else "")
  }

  function VotedText(good: bool): string {
    (if good then "有効" else "無効") + " に投票しました。"
  }

  /** What a ballot does once its outcome is known, whatever threshold
      decided it. An ignored ballot changes nothing and sends nothing. A
      counted ballot is acknowledged to the voter, and the status message is
      edited:
      - accepted: the turn passes to the next player, the vote is reset, the
        word joins the index, and the text gives the result and names the new
        head of the turn order;
      - rejected: the vote is reset and the text gives the result and names
        the player who must answer again;
      - pending: the ballots are copied into the builder and the status text
        is rendered again. */
  predicate Resolves(room: RoomState, user: u64, good: bool, cancel: bool, stored: Option<Index>, r: VoteResult) {
    var v := UpdateBallots(room.vote, user, good, cancel);
    && r.room.id == room.id
    && (r.outcome == Ignored <==> VoteIgnored(room, user))
    && (r.outcome == Ignored ==> r.room == room && r.edit.None? && r.reply.None?)
    && (r.outcome != Ignored ==> r.edit.Some? && r.reply == Some(VotedText(good)))
    && (r.outcome == Accepted ==>
         && (|room.queue| > 0 ==> r.room.queue == RotateLeft(room.queue, 1))
         && (|room.queue| == 0 ==> r.room.queue == [])
         && r.room.vote == DefaultVote()
         && r.room.index.Some?
         && multiset(IndexWords(r.room.index.value))
            == multiset(IndexWords(GetIndexOrNew(room, stored).1)) + multiset{room.vote.targetWord.value}
         && r.edit == Some(AcceptedText(|v.good|, |v.bad|, room.vote.targetWord.value, r.room.queue)))
    && (r.outcome == Rejected ==>
         && r.room == room.(vote := DefaultVote())
         && r.edit == Some(RejectedText(|v.good|, |v.bad|, room.vote.targetWord.value, room.queue)))
    && (r.outcome == Pending ==>
         && r.room == room.(vote := v.(builder := v.builder.(voteGood := v.good, voteBad := v.bad)))
         && r.edit == Some(Build(r.room.vote.builder)))
  }

  /** Steps 2 to 6 of `vote` against a given threshold: the word is accepted
      once the good ballots reach `majority`, rejected once the bad ones do,
      and otherwise the vote stays pending. */
  function Tally(room: RoomState, user: u64, good: bool, cancel: bool, stored: Option<Index>, majority: nat): (r: VoteResult)
    ensures Resolves(room, user, good, cancel, stored, r)
    ensures var v := UpdateBallots(room.vote, user, good, cancel);
      && (r.outcome == Accepted <==> !VoteIgnored(room, user) && |v.good| >= majority)
      && (r.outcome == Rejected <==> !VoteIgnored(room, user) && |v.good| < majority
                                     && |v.bad| >= majority)
  {
    if VoteIgnored(room, user) then VoteResult(Ignored, room, None, None)
    else
      var word := room.vote.targetWord.value;
      var v := UpdateBallots(room.vote, user, good, cancel);
      if |v.good| >= majority then
        var queue := if |room.queue| > 0 then RotateLeft(room.queue, 1) else room.queue;
        var text := AcceptedText(|v.good|, |v.bad|, word, queue);
        var reset := room.(queue := queue, vote := DefaultVote());
        var (loaded, ix) := GetIndexOrNew(reset, stored);
        assert GetIndexOrNew(room, stored).1 == ix;
        VoteResult(Accepted, loaded.(index := Some(AddWord(ix, word))), Some(text), Some(VotedText(good)))
      else if |v.bad| >= majority then
        var text := RejectedText(|v.good|, |v.bad|, word, room.queue);
        VoteResult(Rejected, room.(vote := DefaultVote()), Some(text), Some(VotedText(good)))
      else
        var builder := v.builder.(voteGood := v.good, voteBad := v.bad);
        var room' := room.(vote := v.(builder := builder));
        VoteResult(Pending, room', Some(Build(builder)), Some(VotedText(good)))
  }

  /** `vote`, with the tally and its outcome as one step. The threshold is a
      majority of the whole turn order (step 4). */
  function Vote(room: RoomState, user: u64, good: bool, cancel: bool, stored: Option<Index>): (r: VoteResult)
    ensures Resolves(room, user, good, cancel, stored, r)
    ensures var v := UpdateBallots(room.vote, user, good, cancel);
      && (r.outcome == Accepted <==> !VoteIgnored(room, user) && |v.good| >= Majority(|room.queue|))
      && (r.outcome == Rejected <==> !VoteIgnored(room, user) && |v.good| < Majority(|room.queue|)
                                     && |v.bad| >= Majority(|room.queue|))
  {
    Tally(room, user, good, cancel, stored, Majority(|room.queue|))
  }

  /** The vote with the threshold taken over the voters the proposal asks,
      which leaves the proposer out. It has the same effects as `Vote` for
      each outcome, and wherever the two thresholds lead to the same outcome
      it is exactly `Vote`. */
  function VoteOverVoters(room: RoomState, user: u64, good: bool, cancel: bool, stored: Option<Index>): (r: VoteResult)
    ensures Resolves(room, user, good, cancel, stored, r)
    ensures var v := UpdateBallots(room.vote, user, good, cancel);
      var m := Majority(|room.vote.builder.allUsers|);
      && (r.outcome == Accepted <==> !VoteIgnored(room, user) && |v.good| >= m)
      && (r.outcome == Rejected <==> !VoteIgnored(room, user) && |v.good| < m && |v.bad| >= m)
    ensures r.outcome == Vote(room, user, good, cancel, stored).outcome ==> r == Vote(room, user, good, cancel, stored)
  {
    Tally(room, user, good, cancel, stored, Majority(|room.vote.builder.allUsers|))
  }

  /** A single mention between texts without `<` is all that reads back. */
  lemma LoneMention(p: string, id: u64, t: string)
    requires '<' !in p && '<' !in t
    ensures ParseMentions(p + (Mention(id) + t)) == [id]
  {
    ParsePlainPrefix(p, Mention(id) + t);
    ParseMentionFirst(id, t);
    ParsePlainPrefix(t, "");
    assert t + "" == t;
  }

  /** Text without `<` names nobody. */
  lemma NoMention(p: string)
    requires '<' !in p
    ensures ParseMentions(p) == []
  {
    ParsePlainPrefix(p, "");
    assert p + "" == p;
  }

  /** The result line and the word, the part both resolution texts share in
      shape, hold no `<` when the word holds none. */
  lemma ResultLinePlain(first: string, n1: nat, second: string, n2: nat, word: string, verdict: string)
    requires '<' !in first && '<' !in second && '<' !in word && '<' !in verdict
    ensures '<' !in first + DecimalString(n1) + second + DecimalString(n2) + ")\n\"" + word + verdict
  {
    NoAngleInDecimal(n1);
    NoAngleInDecimal(n2);
  }

  /** The accepted text read back: it names the new head of the turn order
      and nobody else, for a word without `<` (as every word the proposal
      pattern admits is). */
  lemma AcceptedMentions(goodCount: nat, badCount: nat, word: string, queue: seq<u64>)
    requires '<' !in word
    ensures ParseMentions(AcceptedText(goodCount, badCount, word, queue)) == if |queue| > 0 then [queue[0]] else []
  {
    var line := "投票終了！結果: YES(" + DecimalString(goodCount) + ") / NO(" + DecimalString(badCount) + ")\n\""
      + word + "\"は可決されました。";
    ResultLinePlain("投票終了！結果: YES(", goodCount, ") / NO(", badCount, word, "\"は可決されました。");
    if |queue| > 0 {
      assert AcceptedText(goodCount, badCount, word, queue) == (line + "\n次は") + (Mention(queue[0]) + " の番です。");
      LoneMention(line + "\n次は", queue[0], " の番です。");
    } else {
      assert AcceptedText(goodCount, badCount, word, queue) == line;
      NoMention(line);
    }
  }

  /** The rejected text read back: it names the head of the turn order, who
      must answer again, and nobody else. */
  lemma RejectedMentions(goodCount: nat, badCount: nat, word: string, queue: seq<u64>)
    requires '<' !in word
    ensures ParseMentions(RejectedText(goodCount, badCount, word, queue)) == if |queue| > 0 then [queue[0]] else []
  {
    var line := "投票終了！結果: NO(" + DecimalString(badCount) + ") / YES(" + DecimalString(goodCount) + ")\n\""
      + word + "\"は否決されました。";
    ResultLinePlain("投票終了！結果: NO(", badCount, ") / YES(", goodCount, word, "\"は否決されました。");
    if |queue| > 0 {
      assert RejectedText(goodCount, badCount, word, queue) == (line + "\n") + (Mention(queue[0]) + " は、別の回答をしてください。");
      LoneMention(line + "\n", queue[0], " は、別の回答をしてください。");
    } else {
      assert RejectedText(goodCount, badCount, word, queue) == line;
      NoMention(line);
    }
  }

  /** The status message a resolved vote leaves behind names whose turn it
      is: after an acceptance the player after the old head (the same player
      when they are alone), after a rejection the head itself. This holds
      for any threshold, so for `Vote` and `VoteOverVoters` alike. */
  lemma ResolutionNamesNextPlayer(room: RoomState, user: u64, good: bool, cancel: bool, stored: Option<Index>,
                                  r: VoteResult)
    requires Resolves(room, user, good, cancel, stored, r)
    requires room.vote.targetWord.Some? ==> '<' !in room.vote.targetWord.value
    ensures r.outcome == Accepted && |room.queue| > 0 ==>
      ParseMentions(r.edit.value) == [if |room.queue| > 1 then room.queue[1] else room.queue[0]]
    ensures r.outcome == Rejected && |room.queue| > 0 ==>
      ParseMentions(r.edit.value) == [room.queue[0]]
  {
    if r.outcome == Accepted && |room.queue| > 0 {
      var v := UpdateBallots(room.vote, user, good, cancel);
      var q := r.room.queue;
      var text := AcceptedText(|v.good|, |v.bad|, room.vote.targetWord.value, q);
      assert r.edit.value == text;
      assert ParseMentions(text) == [q[0]] by {
        AcceptedMentions(|v.good|, |v.bad|, room.vote.targetWord.value, q);
      }
      assert q[0] == if |room.queue| > 1 then room.queue[1] else room.queue[0] by {
        assert q == RotateLeft(room.queue, 1);
      }
    } else if r.outcome == Rejected && |room.queue| > 0 {
      var v := UpdateBallots(room.vote, user, good, cancel);
      var text := RejectedText(|v.good|, |v.bad|, room.vote.targetWord.value, room.queue);
      assert r.edit.value == text;
      RejectedMentions(|v.good|, |v.bad|, room.vote.targetWord.value, room.queue);
    }
  }

  /** Every step of a vote keeps the ballot sets sets, and disjoint. */
  lemma VoteKeepsBallots(room: RoomState, user: u64, good: bool, cancel: bool, stored: Option<Index>)
    requires BallotsOk(room.vote)
    ensures BallotsOk(Vote(room, user, good, cancel, stored).room.vote)
  {
  }

  /** An accepted word keeps a valid index valid and grows it by that word. */
  lemma AcceptKeepsIndexValid(room: RoomState, user: u64, good: bool, cancel: bool, stored: Option<Index>)
    requires Vote(room, user, good, cancel, stored).outcome == Accepted
    requires ValidIndex(GetIndexOrNew(room, stored).1)
    ensures var r := Vote(room, user, good, cancel, stored).room;
      r.index.Some? && ValidIndex(r.index.value)
  {
  }

  /** With the proposer counted in the majority but barred from voting, two
      players can never pass a word by their own ballots: the one other
      player is short of the majority of 2, so `Vote` never accepts. */
  lemma TwoPlayersNeedOutsiders(queue: seq<u64>, v: VoteState, user: u64, good: bool, cancel: bool)
    requires |queue| == 2 && user == queue[1] != queue[0]
    requires BallotsOk(v)
    requires forall x :: x in v.good ==> x == queue[1]
    ensures |UpdateBallots(v, user, good, cancel).good| < Majority(|queue|)
  {
    var v' := UpdateBallots(v, user, good, cancel);
    forall x | x in v'.good
      ensures x == user
    {
      GoodBallotFrom(v, user, good, cancel, x);
    }
    AtMostOneOf(v'.good, user);
  }

  /** The same two-player game measured against the voters a proposal asks
      (the turn order without the proposer): the other player's good ballot
      is a majority of those voters, while it stays short of the majority of
      the whole turn order that `vote` uses. */
  lemma TwoPlayersPassOverVoters(room: RoomState, user: u64, other: u64, word: string)
    requires room.queue == [user, other] && user != other
    ensures var v := TryWord(room, user, word).0.vote;
      && v.builder.allUsers == [other]
      && |UpdateBallots(v, other, true, false).good| >= Majority(|v.builder.allUsers|)
      && |UpdateBallots(v, other, true, false).good| < Majority(|room.queue|)
  {
    var v := TryWord(room, user, word).0.vote;
    assert v.builder.allUsers == [other] by {
      TryWordVoters(room, user, word, [], [other]);
      WithoutAbsent([other], user);
      assert room.queue == [] + [user] + [other];
    }
    var v' := UpdateBallots(v, other, true, false);
    assert |v'.good| == 1 by {
      assert other in v'.good;
      assert |v.good| == 0;
      forall x | x in v'.good
        ensures x == other
      {
        GoodBallotFrom(v, other, true, false, x);
      }
      AtMostOneOf(v'.good, other);
    }
  }

  /** The corrected two-player game: once the proposal's message is posted,
      the other player's good ballot passes the word under `VoteOverVoters`,
      while under `Vote` it leaves the vote pending. */
  lemma TwoPlayersAcceptOverVoters(room: RoomState, user: u64, other: u64, word: string,
                                   messageId: u64, stored: Option<Index>)
    requires room.queue == [user, other] && user != other
    ensures var ready := AttachVoteMessage(TryWord(room, user, word).0, messageId);
      && VoteOverVoters(ready, other, true, false, stored).outcome == Accepted
      && Vote(ready, other, true, false, stored).outcome == Pending
  {
    var v := TryWord(room, user, word).0.vote;
    var ready := AttachVoteMessage(TryWord(room, user, word).0, messageId);
    TwoPlayersPassOverVoters(room, user, other, word);
    assert !VoteIgnored(ready, other);
    var u := UpdateBallots(v, other, true, false);
    assert UpdateBallots(ready.vote, other, true, false).good == u.good;
    assert UpdateBallots(ready.vote, other, true, false).bad == u.bad == [];
    assert ready.queue == room.queue && ready.vote.builder.allUsers == v.builder.allUsers;
  }

  /** A good ballot after an update is the voter's or was there before. */
  lemma GoodBallotFrom(v: VoteState, user: u64, good: bool, cancel: bool, x: u64)
    requires x in UpdateBallots(v, user, good, cancel).good
    ensures x == user || x in v.good
  {
    if x != user {
      assert multiset(UpdateBallots(v, user, good, cancel).good)[x] == multiset(v.good)[x];
    }
  }

  /** A duplicate-free sequence of copies of one value has at most one
      element. */
  lemma AtMostOneOf(s: seq<u64>, o: u64)
    requires NoDup(s)
    requires forall x :: x in s ==> x == o
    ensures |s| <= 1
  {
    CountAll(s, o);
    if |s| > 0 {
      assert s[0] in s;
    }
  }

  lemma {:induction false} CountAll(s: seq<u64>, o: u64)
    requires forall x :: x in s ==> x == o
    ensures multiset(s)[o] == |s|
  {
    if |s| > 0 {
      assert s == [s[0]] + s[1..];
      assert s[0] in s;
      assert forall x :: x in s[1..] ==> x in s;
      CountAll(s[1..], o);
    }
  }

  // ---------------------------------------------------------------------------
  // Queue commands
  // ---------------------------------------------------------------------------

  /** `set_queue`: the reply describes the new or current order; the order is
      replaced only by a non-empty list. */
  function SetQueue(room: RoomState, users: seq<u64>): (r: (RoomState, string))
    ensures |users| > 0 ==> r.0 == room.(queue := users)
    ensures |users| == 0 ==> r.0 == room
    ensures r.1 == SetQueueMessage(users, room.queue)
  {
    (if |users| > 0 then room.(queue := users) else room, SetQueueMessage(users, room.queue))
  }

  /** `add_queue`: the user joins at the back, even if already queued. */
  function AddQueue(room: RoomState, user: u64): (r: (RoomState, string))
    ensures r.0 == room.(queue := room.queue + [user])
    ensures r.1 == AddQueueMessage(room.queue, user)
  {
    (room.(queue := room.queue + [user]), AddQueueMessage(room.queue, user))
  }

  /** The queue a non-empty `!queue` sets is played in exactly that order: a
      full round of skips brings it back, and an empty `!queue` afterwards
      keeps it. */
  lemma SetQueueRound(room: RoomState, users: seq<u64>)
    requires |users| > 0
    ensures Skip(SetQueue(room, users).0, |users|).0.queue == users
    ensures SetQueue(SetQueue(room, users).0, []).0.queue == users
  {
    var n := |users|;
    var q' := Skip(SetQueue(room, users).0, n).0.queue;
    forall i | 0 <= i < n
      ensures q'[i] == users[i]
    {
      ModUnique(i + n, n, 1, i);
    }
  }

  /** A user added to the back has the turn once everyone queued before has
      had theirs, and adding someone twice queues them twice. */
  lemma AddQueueTurn(room: RoomState, user: u64)
    ensures Skip(AddQueue(room, user).0, |room.queue|).0.queue[0] == user
    ensures AddQueue(AddQueue(room, user).0, user).0.queue == room.queue + [user, user]
  {
    var n := |room.queue|;
    ModUnique(n, n + 1, 0, n);
  }

  /** `skip`: the head of the order is reported, the order rotates left by
      `count` modulo its length (an empty order stays empty), and any vote is
      dropped. */
  function Skip(room: RoomState, count: nat): (r: (RoomState, Option<u64>))
    ensures r.1 == (if |room.queue| > 0 then Some(room.queue[0]) else None)
    ensures |r.0.queue| == |room.queue| && multiset(r.0.queue) == multiset(room.queue)
    ensures forall i :: 0 <= i < |room.queue| ==> r.0.queue[i] == room.queue[(i + count) % |room.queue|]
    ensures r.0 == room.(queue := r.0.queue, vote := DefaultVote())
  {
    var q := room.queue;
    var q' := if |q| > 0 then RotateLeft(q, count % |q|) else q;
    assert forall i :: 0 <= i < |q| ==> q'[i] == q[(i + count) % |q|] by {
      forall i | 0 <= i < |q| {
        RotateMod(q, count, i);
      }
    }
    (room.(queue := q', vote := DefaultVote()), if |q| > 0 then Some(q[0]) else None)
  }

  /** Skipping `a` turns and then `b` turns is skipping `a + b` turns. */
  lemma SkipCompose(room: RoomState, a: nat, b: nat)
    ensures Skip(Skip(room, a).0, b).0 == Skip(room, a + b).0
  {
    var q := room.queue;
    var q1 := Skip(room, a).0.queue;
    var q2 := Skip(Skip(room, a).0, b).0.queue;
    var q3 := Skip(room, a + b).0.queue;
    forall i | 0 <= i < |q|
      ensures q2[i] == q3[i]
    {
      ModAddMod(i, a, b, |q|);
    }
  }

  // ---------------------------------------------------------------------------
  // Words
  // ---------------------------------------------------------------------------

  /** Duplicates dropped, first occurrences kept in order: the `HashSet`
      merge of search results, in one of the orders it may produce. */
  function Dedup(s: seq<string>): (r: seq<string>)
    ensures NoDup(r)
    ensures forall w :: w in r <==> w in s
  {
    if |s| == 0 then []
    else
      var r := Dedup(s[..|s| - 1]);
      var last := s[|s| - 1];
      assert s == s[..|s| - 1] + [last];
      if last in r then r else r + [last]
  }

  /** `SearchOptions`: the fuzzy distance and the match mode, each optional. */
  datatype SearchOptions = SearchOptions(fuzzyDistance: Option<nat>, matchMode: Option<MatchMode>)

  /** The search both finds share: fuzzy results and match results, merged
      without repeats. */
  function SearchMerged(ix: Index, q: string, options: SearchOptions): (r: seq<string>)
    ensures NoDup(r)
    ensures ValidIndex(ix) ==> forall w :: w in r <==> w in IndexWords(ix) && Wanted(w, q, options)
  {
    var like := match options.fuzzyDistance case Some(d) => SearchFuzzy(ix, q, d) case None => [];
    var matched := match options.matchMode case Some(mode) => SearchMatch(ix, q, mode) case None => [];
    MergedMembers(ix, q, options, like, matched);
    Dedup(like + matched)
  }

  /** What a search with `options` asks for: within the fuzzy distance, or
      matching in the given mode. */
  predicate Wanted(w: string, q: string, options: SearchOptions) {
    || (options.fuzzyDistance.Some? && Dist(q, w) <= options.fuzzyDistance.value)
    || (options.matchMode.Some? && Matches(w, q, options.matchMode.value))
  }

  lemma MergedMembers(ix: Index, q: string, options: SearchOptions, like: seq<string>, matched: seq<string>)
    requires like == match options.fuzzyDistance case Some(d) => SearchFuzzy(ix, q, d) case None => []
    requires matched == match options.matchMode case Some(mode) => SearchMatch(ix, q, mode) case None => []
    ensures ValidIndex(ix) ==> forall w :: w in like + matched <==> w in IndexWords(ix) && Wanted(w, q, options)
  {
    if ValidIndex(ix) {
      forall w
        ensures w in like + matched <==> w in IndexWords(ix) && Wanted(w, q, options)
      {
        if options.fuzzyDistance.Some? {
          InWithinDist(IndexWords(ix), q, options.fuzzyDistance.value, w);
        }
        if options.matchMode.Some? {
          InMatching(IndexWords(ix), q, options.matchMode.value, w);
        }
      }
    }
  }

  /** The options of `default_find`: fuzzy distance a quarter of the query's
      UTF-8 length, and substring matching. */
  function DefaultOptions(q: string): SearchOptions {
    SearchOptions(Some(Utf8Length(q) / 4), Some(Substring))
  }

  /** `default_find`: the stored words within a quarter of the query's length,
      or containing the query, each once. */
  function DefaultFind(ix: Index, q: string): (r: seq<string>)
    ensures NoDup(r)
  {
    SearchMerged(ix, q, DefaultOptions(q))
  }

  /** On a valid index, `default_find` returns exactly the stored words within
      a quarter of the query's UTF-8 length of it, or containing it. */
  lemma DefaultFindMembers(ix: Index, q: string, w: string)
    requires ValidIndex(ix)
    ensures w in DefaultFind(ix, q) <==> w in IndexWords(ix) && (Dist(q, w) <= Utf8Length(q) / 4 || Contains(w, q))
  {
    assert Wanted(w, q, DefaultOptions(q)) <==> Dist(q, w) <= Utf8Length(q) / 4 || Contains(w, q);
  }

  /** `find_words`: the index is loaded if needed, searched with the given
      options, and the merged words are posted. */
  function FindWords(room: RoomState, q: string, options: SearchOptions, stored: Option<Index>): (r: (RoomState, seq<string>, string))
    ensures r.0 == GetIndexOrNew(room, stored).0
    ensures r.1 == SearchMerged(GetIndexOrNew(room, stored).1, q, options)
    ensures r.2 == FindMessage(q, r.1)
  {
    var (loaded, ix) := GetIndexOrNew(room, stored);
    var found := SearchMerged(ix, q, options);
    (loaded, found, FindMessage(q, found))
  }

  /** `add_words`: the index is loaded if needed and the words are added one
      by one, in order. */
  method AddWordsTo(room: RoomState, words: seq<string>, stored: Option<Index>) returns (r: RoomState)
    ensures r.index.Some?
    ensures r == GetIndexOrNew(room, stored).0.(index := r.index)
    ensures r.index.value == AddEach(GetIndexOrNew(room, stored).1, words)
    ensures multiset(IndexWords(r.index.value)) == multiset(IndexWords(GetIndexOrNew(room, stored).1)) + multiset(words)
    ensures ValidIndex(GetIndexOrNew(room, stored).1) ==> ValidIndex(r.index.value)
  {
    var (loaded, ix) := GetIndexOrNew(room, stored);
    var added := AddWords(ix, words);
    r := loaded.(index := Some(added));
  }

  // ---------------------------------------------------------------------------
  // Actions on the registry
  // ---------------------------------------------------------------------------

  /** How `try_word`, `vote`, `set_queue` and `add_queue` reach their room:
      nothing happens for a channel that is not registered. */
  function InKnownRoom(reg: Registry, id: u64, step: RoomState -> RoomState): (r: Registry)
    ensures !HasRoom(reg, id) ==> r == reg
    ensures HasRoom(reg, id) ==> r == reg[id := step(reg[id])]
  {
    if id in reg then reg[id := step(reg[id])] else reg
  }

  /** How `add_words`, `find_words` and `skip` reach their room: through
      `get_or_new_room_mut`, which registers the channel if needed. */
  function InAnyRoom(reg: Registry, id: u64, step: RoomState -> RoomState): (r: Registry)
    ensures HasRoom(r, id) && r.Keys == reg.Keys + {id}
    ensures r[id] == step(GetOrNewRoom(reg, id).1)
    ensures forall other :: other in reg && other != id ==> r[other] == reg[other]
  {
    var (created, room) := GetOrNewRoom(reg, id);
    created[id := step(room)]
  }
}
