/** The texts the bot posts, from src/message.rs: the running status message of
    a proposed word (`TryMessageBuilder`) and the replies to the queue, find
    and add-words commands. Every user appears as a `<@id>` mention, so the
    properties below read the users of a message back with `ParseMentions`,
    and read code-block entries back by splitting on newlines. */
module Message {
  import opened Wrappers
  import opened Ints
  import opened Text
  import opened Mentions

  // ---------------------------------------------------------------------------
  // The status message of a proposed word
  // ---------------------------------------------------------------------------

  /** `TryMessageBuilder`: the proposer, the word, its meaning once looked up,
      the users asked to vote, the two ballot lists, and the similar words
      once searched. */
  datatype TryMessageBuilder = TryMessageBuilder(
    user: Option<u64>,
    word: Option<string>,
    mean: Option<string>,
    allUsers: seq<u64>,
    voteGood: seq<u64>,
    voteBad: seq<u64>,
    likeWords: Option<seq<string>>)

  /** `TryMessageBuilder::default()` */
  function DefaultBuilder(): (b: TryMessageBuilder)
    ensures b.user.None? && b.word.None? && b.mean.None? && b.likeWords.None?
    ensures b.allUsers == [] && b.voteGood == [] && b.voteBad == []
  {
    TryMessageBuilder(None, None, None, [], [], [], None)
  }

  /** `TryMessageBuilder::init`: the proposer, the word and the voters are set
      and every other field keeps its default. */
  function InitBuilder(user: u64, word: string, users: seq<u64>): (b: TryMessageBuilder)
    ensures b.user == Some(user) && b.word == Some(word) && b.allUsers == users
    ensures b == DefaultBuilder().(user := Some(user), word := Some(word), allUsers := users)
  {
    TryMessageBuilder(Some(user), Some(word), None, users, [], [], None)
  }

  /** The word was already answered: it is among the similar words found. */
  predicate AlreadyAnswered(b: TryMessageBuilder) {
    b.word.Some? && b.likeWords.Some? && b.word.value in b.likeWords.value
  }

  /** The whole message in the already-answered case. */
  function AnsweredText(word: string, user: Option<u64>): string {
    match user
    case Some(u) => word + " はすでに回答されています。\n" + Mention(u) + " は、別の回答を提出してください。"
    case None => word + " はすでに回答されています。"
  }

  /** Section 1: who proposed which word. */
  function ProposalSection(b: TryMessageBuilder): string {
    if b.user.Some? && b.word.Some? then Mention(b.user.value) + (" が " + b.word.value + " を回答しました。\n")
    else ""
  }

  /** Section 2: the meaning of the word, or a placeholder while it is looked up. */
  function MeaningSection(b: TryMessageBuilder): string {
    match b.word
    case None => ""
    case Some(w) =>
      match b.mean
      case Some(m) => w + " の意味は以下の通りです\n```\n" + m + "\n```\n"
      case None => w + " の意味を検索中...\n"
  }

  const SimilarHeader: string := "類似する単語は以下の通りです:"
  const Fence: string := "```"

  /** Section 3: the similar words, one per line inside a code block, or a
      placeholder while they are searched or when there are none. */
  function SimilarSection(b: TryMessageBuilder): string {
    match b.likeWords
    case Some(ws) =>
      if |ws| > 0 then Lines([SimilarHeader, Fence] + ws + [Fence])
      else if b.word.Some? then b.word.value + " に類似する単語は回答されていません。\n"
      else ""
    case None =>
      if b.word.Some? then b.word.value + " に類似する単語を検索中...\n" else ""
  }

  /** The users asked to vote who are in neither ballot list, in their order. */
  function NotVoted(all: seq<u64>, good: seq<u64>, bad: seq<u64>): (r: seq<u64>)
    ensures |r| <= |all|
    ensures forall k :: 0 <= k < |r| ==> r[k] in all && r[k] !in good && r[k] !in bad
    ensures forall u :: u in all && u !in good && u !in bad ==> u in r
  {
    if |all| == 0 then []
    else
      var rest := NotVoted(all[1..], good, bad);
      assert forall u :: u in all ==> u == all[0] || u in all[1..];
      if all[0] !in good && all[0] !in bad then [all[0]] + rest else rest
  }

  /** One line of the vote tally: a label, a count in parentheses, and a
      `, `-separated list of mentions. */
  function TallyLine(name: string, count: nat, ids: seq<u64>): string {
    name + "(" + DecimalString(count) + "): " + (MentionList(ids, ", ") + "\n")
  }

  const GoodLabel: string := ":thumbsup: Good"
  const BadLabel: string := ":thumbsdown: Bad"
  const NotVotedLabel: string := ":crab: 未投票"

  /** Section 4, given the number printed in the not-voted slot: the totals,
      then the good, bad and not-voted users. */
  function VoteSectionWith(good: seq<u64>, bad: seq<u64>, all: seq<u64>, remaining: nat): string {
    ":timer: 投票状況 (" + DecimalString(|good| + |bad|) + " / " + DecimalString(|all|) + "人 投票済み)\n\n"
      + (TallyLine(GoodLabel, |good|, good)
      + (TallyLine(BadLabel, |bad|, bad)
      + TallyLine(NotVotedLabel, remaining, NotVoted(all, good, bad))))
  }

  /** The four sections of a status message that is not the already-answered
      text, given the number printed in the not-voted slot. */
  function Sections(b: TryMessageBuilder, remaining: nat): string {
    ProposalSection(b) + (MeaningSection(b) + (SimilarSection(b)
      + VoteSectionWith(b.voteGood, b.voteBad, b.allUsers, remaining)))
  }

  /** The not-voted count as `build` computes it: `total - voted` on `usize`.
      In a release build, where overflow checks are off, the difference wraps
      around when more ballots were cast than there are users asked to vote;
      a debug build panics there instead. */
  function NotVotedCount(b: TryMessageBuilder): (n: nat)
    ensures n < TWO_TO_THE_64
    ensures |b.voteGood| + |b.voteBad| <= |b.allUsers| < TWO_TO_THE_64 ==>
      n == |b.allUsers| - (|b.voteGood| + |b.voteBad|)
    ensures |b.allUsers| < |b.voteGood| + |b.voteBad| <= |b.allUsers| + TWO_TO_THE_64 ==>
      n == |b.allUsers| - (|b.voteGood| + |b.voteBad|) + TWO_TO_THE_64
  {
    WrappingSub(|b.allUsers|, |b.voteGood| + |b.voteBad|)
  }

  /** `build`: the fixed text when the word was already answered, and
      otherwise the four sections with the not-voted count of `total - voted`. */
  function Build(b: TryMessageBuilder): (r: string)
    ensures AlreadyAnswered(b) ==> r == AnsweredText(b.word.value, b.user)
    ensures !AlreadyAnswered(b) ==> r == Sections(b, NotVotedCount(b))
  {
    if AlreadyAnswered(b) then AnsweredText(b.word.value, b.user)
    else Sections(b, NotVotedCount(b))
  }

  /** `build` with the not-voted count taken from the not-voted list itself,
      so that the number printed is the number of users the line names. */
  function BuildCorrected(b: TryMessageBuilder): (r: string)
    ensures AlreadyAnswered(b) ==> r == AnsweredText(b.word.value, b.user)
    ensures !AlreadyAnswered(b) ==> r == Sections(b, |NotVoted(b.allUsers, b.voteGood, b.voteBad)|)
  {
    if AlreadyAnswered(b) then AnsweredText(b.word.value, b.user)
    else Sections(b, |NotVoted(b.allUsers, b.voteGood, b.voteBad)|)
  }

  // ---------------------------------------------------------------------------
  // Reading the status message back
  // ---------------------------------------------------------------------------

  lemma NoAngleInDecimal(n: nat)
    ensures '<' !in DecimalString(n)
  {
    var d := DecimalString(n);
    assert forall k :: 0 <= k < |d| ==> IsDigit(d[k]);
  }

  /** A mention list after text without `<` reads back as its ids. */
  lemma ParseAfterPlain(p: string, ids: seq<u64>, t: string)
    requires '<' !in p
    ensures ParseMentions(p + (MentionList(ids, ", ") + t)) == ids + ParseMentions(t)
  {
    ParsePlainPrefix(p, MentionList(ids, ", ") + t);
    ParseMentionList(ids, ", ", t);
  }

  /** A tally line whose name holds no `<` reads back as its list. */
  lemma ParseTallyLine(name: string, count: nat, ids: seq<u64>, t: string)
    requires '<' !in name
    ensures ParseMentions(TallyLine(name, count, ids) + t) == ids + ParseMentions(t)
  {
    var head := name + "(" + DecimalString(count) + "): ";
    NoAngleInDecimal(count);
    assert TallyLine(name, count, ids) + t == head + (MentionList(ids, ", ") + ("\n" + t));
    ParseAfterPlain(head, ids, "\n" + t);
    ParsePlainPrefix("\n", t);
  }

  /** The vote section names the good voters, then the bad voters, then every
      user asked to vote who has cast no ballot, each in list order. */
  lemma VoteSectionMentions(good: seq<u64>, bad: seq<u64>, all: seq<u64>, remaining: nat)
    ensures ParseMentions(VoteSectionWith(good, bad, all, remaining))
         == good + bad + NotVoted(all, good, bad)
  {
    var head := ":timer: 投票状況 (" + DecimalString(|good| + |bad|) + " / " + DecimalString(|all|) + "人 投票済み)\n\n";
    assert '<' !in head by {
      NoAngleInDecimal(|good| + |bad|);
      NoAngleInDecimal(|all|);
    }
    LabelsMentionNobody();
    ParseTallies(head, GoodLabel, BadLabel, NotVotedLabel, good, bad, NotVoted(all, good, bad), remaining);
  }

  /** Three tally lines after a heading, none of whose labels mentions
      anyone, name their users in order. */
  lemma ParseTallies(head: string, l1: string, l2: string, l3: string,
                     ids1: seq<u64>, ids2: seq<u64>, ids3: seq<u64>, n3: nat)
    requires '<' !in head && '<' !in l1 && '<' !in l2 && '<' !in l3
    ensures ParseMentions(head + (TallyLine(l1, |ids1|, ids1)
      + (TallyLine(l2, |ids2|, ids2) + TallyLine(l3, n3, ids3)))) == ids1 + ids2 + ids3
  {
    var last := TallyLine(l3, n3, ids3);
    var rest := TallyLine(l2, |ids2|, ids2) + last;
    var tallies := TallyLine(l1, |ids1|, ids1) + rest;
    assert ParseMentions(head + tallies) == ParseMentions(tallies) by {
      ParsePlainPrefix(head, tallies);
    }
    assert ParseMentions(tallies) == ids1 + ParseMentions(rest) by {
      ParseTallyLine(l1, |ids1|, ids1, rest);
    }
    assert ParseMentions(rest) == ids2 + ParseMentions(last) by {
      ParseTallyLine(l2, |ids2|, ids2, last);
    }
    assert ParseMentions(last) == ids3 by {
      ParseTallyLine(l3, n3, ids3, "");
      assert last + "" == last;
      assert ids3 + [] == ids3;
    }
    assert ids1 + (ids2 + ids3) == ids1 + ids2 + ids3;
  }

  lemma LabelsMentionNobody()
    ensures '<' !in GoodLabel && '<' !in BadLabel && '<' !in NotVotedLabel
  {
  }

  /** The vote section ends with the not-voted line, whose count is the one
      given. */
  lemma VoteSectionEnds(good: seq<u64>, bad: seq<u64>, all: seq<u64>, remaining: nat)
    ensures EndsWith(VoteSectionWith(good, bad, all, remaining), TallyLine(NotVotedLabel, remaining, NotVoted(all, good, bad)))
  {
    var last := TallyLine(NotVotedLabel, remaining, NotVoted(all, good, bad));
    var badLine := TallyLine(BadLabel, |bad|, bad);
    var goodLine := TallyLine(GoodLabel, |good|, good);
    var head := ":timer: 投票状況 (" + DecimalString(|good| + |bad|) + " / " + DecimalString(|all|) + "人 投票済み)\n\n";
    assert EndsWith(last, last) by {
      assert last[|last| - |last|..] == last;
    }
    EndsWithAppend(badLine, last, last);
    EndsWithAppend(goodLine, badLine + last, last);
    EndsWithAppend(head, goodLine + (badLine + last), last);
  }

  /** The sections end with the not-voted line carrying the count given. */
  lemma SectionsEnd(b: TryMessageBuilder, remaining: nat)
    ensures EndsWith(Sections(b, remaining), TallyLine(NotVotedLabel, remaining, NotVoted(b.allUsers, b.voteGood, b.voteBad)))
  {
    var last := TallyLine(NotVotedLabel, remaining, NotVoted(b.allUsers, b.voteGood, b.voteBad));
    var vote := VoteSectionWith(b.voteGood, b.voteBad, b.allUsers, remaining);
    VoteSectionEnds(b.voteGood, b.voteBad, b.allUsers, remaining);
    EndsWithAppend(SimilarSection(b), vote, last);
    EndsWithAppend(MeaningSection(b), SimilarSection(b) + vote, last);
    EndsWithAppend(ProposalSection(b), MeaningSection(b) + (SimilarSection(b) + vote), last);
  }

  /** The status message ends with the not-voted line: as written, its count
      is `total - voted`; corrected, it is the number of users the line names. */
  lemma NotVotedLine(b: TryMessageBuilder)
    requires !AlreadyAnswered(b)
    ensures var nv := NotVoted(b.allUsers, b.voteGood, b.voteBad);
      && EndsWith(Build(b), TallyLine(NotVotedLabel, NotVotedCount(b), nv))
      && EndsWith(BuildCorrected(b), TallyLine(NotVotedLabel, |nv|, nv))
      && ParseMentions(TallyLine(NotVotedLabel, |nv|, nv)) == nv
  {
    var nv := NotVoted(b.allUsers, b.voteGood, b.voteBad);
    SectionsEnd(b, NotVotedCount(b));
    SectionsEnd(b, |nv|);
    ParseTallyLine(NotVotedLabel, |nv|, nv, "");
    assert TallyLine(NotVotedLabel, |nv|, nv) + "" == TallyLine(NotVotedLabel, |nv|, nv);
    assert nv + [] == nv;
  }

  /** Two inputs on which the printed count is not the number of users the
      line names. An outsider's good ballot on a vote asking users 2 and 3
      gives the count 1 beside two names; an outsider's good ballot and
      another's bad ballot on a vote asking user 2 alone wrap the count
      around to 2^64 - 1 beside one name. */
  lemma OutsiderBallotsMiscount()
    ensures var b := InitBuilder(1, "apple", [2, 3]).(voteGood := [4]);
      && NotVotedCount(b) == 1
      && NotVoted(b.allUsers, b.voteGood, b.voteBad) == [2, 3]
    ensures var b := InitBuilder(1, "apple", [2]).(voteGood := [3], voteBad := [4]);
      && NotVotedCount(b) == TWO_TO_THE_64 - 1
      && NotVoted(b.allUsers, b.voteGood, b.voteBad) == [2]
  {
  }

  /** The meaning section holds no `<` when neither the word nor its meaning does. */
  lemma MeaningSectionPlain(b: TryMessageBuilder)
    requires b.word.Some? ==> '<' !in b.word.value
    requires b.mean.Some? ==> '<' !in b.mean.value
    ensures '<' !in MeaningSection(b)
  {
    if b.word.Some? && b.mean.Some? {
      var w, m := b.word.value, b.mean.value;
      assert MeaningSection(b) == w + " の意味は以下の通りです\n```\n" + m + "\n```\n";
    }
  }

  /** The similar-words section holds no `<` when none of the words does. */
  lemma SimilarSectionPlain(b: TryMessageBuilder)
    requires b.word.Some? ==> '<' !in b.word.value
    requires b.likeWords.Some? ==> forall k :: 0 <= k < |b.likeWords.value| ==> '<' !in b.likeWords.value[k]
    ensures '<' !in SimilarSection(b)
  {
    if b.likeWords.Some? && |b.likeWords.value| > 0 {
      var lines := [SimilarHeader, Fence] + b.likeWords.value + [Fence];
      forall k | 0 <= k < |lines|
        ensures '<' !in lines[k]
      {
        if 2 <= k < |lines| - 1 {
          assert lines[k] == b.likeWords.value[k - 2];
        }
      }
      NotInLines(lines, '<');
    }
  }

  /** A mention followed by three pieces of text without `<` and then `rest`
      reads back as that mention and then whatever `rest` reads back as. */
  lemma ParseMentionThenPlain(u: u64, p1: string, p2: string, p3: string, rest: string)
    requires '<' !in p1 && '<' !in p2 && '<' !in p3
    ensures ParseMentions((Mention(u) + p1) + (p2 + (p3 + rest))) == [u] + ParseMentions(rest)
  {
    var r3 := p3 + rest;
    var r2 := p2 + r3;
    var r1 := p1 + r2;
    assert ParseMentions(r1) == ParseMentions(rest) by {
      ParsePlainPrefix(p3, rest);
      ParsePlainPrefix(p2, r3);
      ParsePlainPrefix(p1, r2);
    }
    assert ParseMentions(Mention(u) + r1) == [u] + ParseMentions(r1) by {
      ParseMentionFirst(u, r1);
    }
    assert (Mention(u) + p1) + r2 == Mention(u) + r1;
  }

  /** The sections name, in order: the proposer, the good voters, the bad
      voters and the users yet to vote, provided the word, its meaning and the
      similar words hold no `<`. The count printed does not matter. */
  lemma SectionsMentions(b: TryMessageBuilder, remaining: nat)
    requires b.user.Some? && b.word.Some?
    requires '<' !in b.word.value
    requires b.mean.Some? ==> '<' !in b.mean.value
    requires b.likeWords.Some? ==> forall k :: 0 <= k < |b.likeWords.value| ==> '<' !in b.likeWords.value[k]
    ensures ParseMentions(Sections(b, remaining))
         == [b.user.value] + (b.voteGood + b.voteBad + NotVoted(b.allUsers, b.voteGood, b.voteBad))
  {
    var u, p1 := b.user.value, " が " + b.word.value + " を回答しました。\n";
    var nv := NotVoted(b.allUsers, b.voteGood, b.voteBad);
    var vote := VoteSectionWith(b.voteGood, b.voteBad, b.allUsers, remaining);
    assert ParseMentions(Sections(b, remaining)) == [u] + ParseMentions(vote) by {
      MeaningSectionPlain(b);
      SimilarSectionPlain(b);
      ParseMentionThenPlain(u, p1, MeaningSection(b), SimilarSection(b), vote);
    }
    assert ParseMentions(vote) == b.voteGood + b.voteBad + nv by {
      VoteSectionMentions(b.voteGood, b.voteBad, b.allUsers, remaining);
    }
  }

  /** A status message that is not the already-answered text names the
      proposer, the good voters, the bad voters and the users yet to vote,
      in that order, whichever count it prints. */
  lemma BuildMentions(b: TryMessageBuilder)
    requires !AlreadyAnswered(b) && b.user.Some? && b.word.Some?
    requires '<' !in b.word.value
    requires b.mean.Some? ==> '<' !in b.mean.value
    requires b.likeWords.Some? ==> forall k :: 0 <= k < |b.likeWords.value| ==> '<' !in b.likeWords.value[k]
    ensures ParseMentions(Build(b))
         == [b.user.value] + (b.voteGood + b.voteBad + NotVoted(b.allUsers, b.voteGood, b.voteBad))
    ensures ParseMentions(BuildCorrected(b)) == ParseMentions(Build(b))
  {
    SectionsMentions(b, NotVotedCount(b));
    SectionsMentions(b, |NotVoted(b.allUsers, b.voteGood, b.voteBad)|);
  }

  /** With similar words present, the similar-words section splits into its
      heading, the opening fence, one line per word, and the closing fence. */
  lemma SimilarSectionLines(b: TryMessageBuilder)
    requires b.likeWords.Some? && |b.likeWords.value| > 0
    requires forall k :: 0 <= k < |b.likeWords.value| ==> '\n' !in b.likeWords.value[k]
    ensures Split(SimilarSection(b), '\n') == [SimilarHeader, Fence] + b.likeWords.value + [Fence, ""]
  {
    var lines := [SimilarHeader, Fence] + b.likeWords.value + [Fence];
    forall k | 0 <= k < |lines|
      ensures '\n' !in lines[k]
    {
      if 2 <= k < |lines| - 1 {
        assert lines[k] == b.likeWords.value[k - 2];
      }
    }
    LinesSplit(lines);
  }

  // ---------------------------------------------------------------------------
  // Command replies
  // ---------------------------------------------------------------------------

  const AlreadyRegisteredText: string := "このチャンネルはすでに追加されています。"
  const RegisteredText: string := "このチャンネルをしりとりチャンネルとして追加しました。"

  /** `generate_register_message` */
  function RegisterMessage(isRegistered: bool): (r: string)
    ensures (r == AlreadyRegisteredText) == isRegistered
    ensures (r == RegisteredText) == !isRegistered
  {
    if isRegistered then AlreadyRegisteredText else RegisteredText
  }

  const NoQueueText: string := "順番が設定されていません"

  /** `generate_set_queue_message`: with a new order, that order and its head;
      with none, the current order and its head; with neither, a fixed text. */
  function SetQueueMessage(users: seq<u64>, current: seq<u64>): string {
    if |users| == 0 then
      if |current| == 0 then NoQueueText
      else "現在の順番: " + (MentionList(current, " -> ") + ("\n次は " + (Mention(current[0]) + " の番です。")))
    else MentionList(users, " -> ") + (" の順番に設定しました。\n次は " + (Mention(users[0]) + " の番です。"))
  }

  /** An order of mentions and then a single mention, set in text without
      `<`, reads back as the order followed by that one user. */
  lemma ParseOrderThenNext(p0: string, ids: seq<u64>, sep: string, p1: string, next: u64, p2: string)
    requires '<' !in p0 && '<' !in sep && '<' !in p1 && '<' !in p2
    ensures ParseMentions(p0 + (MentionList(ids, sep) + (p1 + (Mention(next) + p2)))) == ids + [next]
  {
    var t := p1 + (Mention(next) + p2);
    ParsePlainPrefix(p0, MentionList(ids, sep) + t);
    ParseMentionList(ids, sep, t);
    ParsePlainPrefix(p1, Mention(next) + p2);
    ParseMentionFirst(next, p2);
    ParsePlainPrefix(p2, "");
    assert p2 + "" == p2;
  }

  /** The users a set-queue reply names: the shown order, then the next user. */
  lemma SetQueueMentions(users: seq<u64>, current: seq<u64>)
    ensures |users| > 0 ==> ParseMentions(SetQueueMessage(users, current)) == users + [users[0]]
    ensures |users| == 0 && |current| > 0 ==>
      ParseMentions(SetQueueMessage(users, current)) == current + [current[0]]
    ensures |users| == 0 && |current| == 0 ==> SetQueueMessage(users, current) == NoQueueText
  {
    if |users| > 0 {
      var r := SetQueueMessage(users, current);
      assert "" + r == r;
      ParseOrderThenNext("", users, " -> ", " の順番に設定しました。\n次は ", users[0], " の番です。");
    } else if |current| > 0 {
      ParseOrderThenNext("現在の順番: ", current, " -> ", "\n次は ", current[0], " の番です。");
    }
  }

  /** `generate_add_queue_message`: the added user, the queue with that user
      appended, and the head of that queue. */
  function AddQueueMessage(users: seq<u64>, add: u64): string {
    var queue := users + [add];
    Mention(add) + (" をゲームに追加しました。\n現在の順番は "
      + (MentionList(queue, ", ") + (" です。\n次は " + (Mention(queue[0]) + " です。"))))
  }

  /** The users an add-queue reply names: the added user, the whole new queue,
      and its head, which is the added user when the queue was empty. */
  lemma AddQueueMentions(users: seq<u64>, add: u64)
    ensures ParseMentions(AddQueueMessage(users, add))
         == [add] + (users + [add]) + [if |users| > 0 then users[0] else add]
  {
    var queue := users + [add];
    var p0, p1, p2 := " をゲームに追加しました。\n現在の順番は ", " です。\n次は ", " です。";
    var t := p0 + (MentionList(queue, ", ") + (p1 + (Mention(queue[0]) + p2)));
    assert ParseMentions(t) == queue + [queue[0]] by {
      ParseOrderThenNext(p0, queue, ", ", p1, queue[0], p2);
    }
    assert ParseMentions(Mention(add) + t) == [add] + ParseMentions(t) by {
      ParseMentionFirst(add, t);
    }
    assert queue[0] == if |users| > 0 then users[0] else add;
  }

  /** `generate_find_message` */
  function FindMessage(word: string, words: seq<string>): string {
    if |words| == 0 then "「" + word + "」に類似する単語は見つかりませんでした。"
    else "「" + word + "」に類似する単語を見つけました:\n" + Join(words, "\n")
  }

  /** A find reply with results splits into its heading and then exactly one
      line per word found. */
  lemma FindMessageLines(word: string, words: seq<string>)
    requires |words| > 0 && '\n' !in word
    requires forall k :: 0 <= k < |words| ==> '\n' !in words[k]
    ensures Split(FindMessage(word, words), '\n')
         == ["「" + word + "」に類似する単語を見つけました:"] + words
  {
    var head := "「" + word + "」に類似する単語を見つけました:";
    var parts := [head] + words;
    assert parts[1..] == words;
    assert Join(parts, "\n") == FindMessage(word, words);
    SplitJoin(parts, '\n');
  }

  const NoWordsAddedText: string := "追加された単語はありません。"
  const AddedHeader: string := "以下の単語を追加しました。```"

  /** `generate_added_words_message` */
  function AddedWordsMessage(words: seq<string>): string {
    if |words| == 0 then NoWordsAddedText
    else Lines([AddedHeader] + words) + Fence
  }

  /** An added-words reply with words splits into its heading, one line per
      word, and the closing fence. */
  lemma AddedWordsLines(words: seq<string>)
    requires |words| > 0
    requires forall k :: 0 <= k < |words| ==> '\n' !in words[k]
    ensures Split(AddedWordsMessage(words), '\n') == [AddedHeader] + words + [Fence]
  {
    var lines := [AddedHeader] + words;
    forall k | 0 <= k < |lines|
      ensures '\n' !in lines[k]
    {
      if k > 0 {
        assert lines[k] == words[k - 1];
      }
    }
    LinesThenSplit(lines, Fence);
  }
}
