/** User mentions: the `<@id>` text the message builders write, and
    `parse_mentions` of src/commands/message_commands.rs, which reads ids back
    with the regular expression `<@!?(\d+)>`. */
module Mentions {
  import opened Wrappers
  import opened Ints
  import opened Text

  /** `format!("<@{}>", id)` */
  function Mention(id: u64): string {
    "<@" + DecimalString(id) + ">"
  }

  function MentionsOf(ids: seq<u64>): seq<string> {
    if |ids| == 0 then [] else [Mention(ids[0])] + MentionsOf(ids[1..])
  }

  /** `ids.iter().map(|id| format!("<@{}>", id)).collect::<Vec<_>>().join(sep)` */
  function MentionList(ids: seq<u64>, sep: string): string {
    Join(MentionsOf(ids), sep)
  }

  /** The length of the leading run of ASCII digits. */
  function DigitRun(s: string): (k: nat)
    ensures k <= |s| && AllDigits(s[..k])
    ensures k == |s| || !IsDigit(s[k])
  {
    if |s| == 0 || !IsDigit(s[0]) then 0
    else
      var k := 1 + DigitRun(s[1..]);
      assert s[..k] == [s[0]] + s[1..][..k - 1];
      k
  }

  /** A match of `<@!?(\d+)>` starting at the first character of `s`: the
      length of the match and the captured digits. The digit run is greedy,
      and a shorter run could never be followed by `>`, so the match is unique. */
  function MentionAt(s: string): (r: Option<(nat, string)>)
    ensures r.Some? ==> 3 < r.value.0 <= |s| && |r.value.1| > 0 && AllDigits(r.value.1)
  {
    if |s| >= 2 && s[0] == '<' && s[1] == '@' then
      var j := if |s| > 2 && s[2] == '!' then 3 else 2;
      var k := DigitRun(s[j..]);
      assert s[j..][..k] == s[j..j + k];
      if k > 0 && j + k < |s| && s[j + k] == '>' then Some((j + k + 1, s[j..j + k])) else None
    else None
  }

  /** `parse_mentions`: scan left to right for non-overlapping matches, and keep
      each captured number that `parse::<u64>()` accepts; a capture past
      `u64::MAX` is dropped. */
  function ParseMentions(s: string): seq<u64>
    decreases |s|
  {
    if |s| == 0 then []
    else
      match MentionAt(s)
      case Some((len, digits)) =>
        (match ParseU64(digits) case Some(id) => [id] case None => []) + ParseMentions(s[len..])
      case None => ParseMentions(s[1..])
  }

  lemma {:induction false} DigitRunOf(d: string, t: string)
    requires AllDigits(d)
    requires |t| > 0 && !IsDigit(t[0])
    ensures DigitRun(d + t) == |d|
  {
    if |d| > 0 {
      assert (d + t)[1..] == d[1..] + t;
      DigitRunOf(d[1..], t);
    } else {
      assert d + t == t;
    }
  }

  /** Text without a `<` contributes no mention. */
  lemma {:induction false} ParsePlainPrefix(p: string, t: string)
    requires '<' !in p
    ensures ParseMentions(p + t) == ParseMentions(t)
  {
    if |p| > 0 {
      assert (p + t)[0] == p[0];
      assert (p + t)[1..] == p[1..] + t;
      ParsePlainPrefix(p[1..], t);
    } else {
      assert p + t == t;
    }
  }

  /** A rendered mention is read back as its id. */
  lemma ParseMentionFirst(id: u64, t: string)
    ensures ParseMentions(Mention(id) + t) == [id] + ParseMentions(t)
  {
    var d := DecimalString(id);
    var s := Mention(id) + t;
    assert s == "<@" + (d + (">" + t));
    assert s[2..] == d + (">" + t);
    assert s[2] == d[0] && IsDigit(d[0]);
    DigitRunOf(d, ">" + t);
    assert DigitRun(s[2..]) == |d|;
    assert s[2..][..|d|] == d;
    assert s[2..2 + |d|] == d;
    assert s[2 + |d|] == '>';
    assert MentionAt(s) == Some((|d| + 3, d));
    ParseDecimal(id);
    assert s[|d| + 3..] == t;
  }

  /** The rendered list unfolds one mention at a time. */
  lemma MentionListUnfold(ids: seq<u64>, sep: string)
    requires |ids| > 0
    ensures |ids| == 1 ==> MentionList(ids, sep) == Mention(ids[0])
    ensures |ids| > 1 ==> MentionList(ids, sep) == Mention(ids[0]) + sep + MentionList(ids[1..], sep)
  {
    assert MentionsOf(ids)[0] == Mention(ids[0]);
    assert MentionsOf(ids)[1..] == MentionsOf(ids[1..]);
  }

  /** A mention followed by a separator without `<` reads back as its id
      followed by whatever the rest reads back as. */
  lemma ParseMentionThenSep(id: u64, sep: string, rest: string, later: seq<u64>)
    requires '<' !in sep
    requires ParseMentions(rest) == later
    ensures ParseMentions(Mention(id) + sep + rest) == [id] + later
  {
    assert Mention(id) + sep + rest == Mention(id) + (sep + rest);
    assert ParseMentions(Mention(id) + (sep + rest)) == [id] + ParseMentions(sep + rest) by {
      ParseMentionFirst(id, sep + rest);
    }
    assert ParseMentions(sep + rest) == later by {
      ParsePlainPrefix(sep, rest);
    }
  }

  lemma MentionListAppend(ids: seq<u64>, sep: string, t: string)
    requires |ids| > 1
    ensures MentionList(ids, sep) + t == Mention(ids[0]) + sep + (MentionList(ids[1..], sep) + t)
  {
    MentionListUnfold(ids, sep);
  }

  /** One step of the list round trip: the first mention and the separator
      after it. */
  lemma ParseMentionListStep(ids: seq<u64>, sep: string, t: string)
    requires |ids| > 1 && '<' !in sep
    requires ParseMentions(MentionList(ids[1..], sep) + t) == ids[1..] + ParseMentions(t)
    ensures ParseMentions(MentionList(ids, sep) + t) == ids + ParseMentions(t)
  {
    var rest := MentionList(ids[1..], sep) + t;
    var later := ids[1..] + ParseMentions(t);
    assert MentionList(ids, sep) + t == Mention(ids[0]) + sep + rest by {
      MentionListAppend(ids, sep, t);
    }
    assert ParseMentions(Mention(ids[0]) + sep + rest) == [ids[0]] + later by {
      ParseMentionThenSep(ids[0], sep, rest, later);
    }
    assert [ids[0]] + later == ids + ParseMentions(t) by {
      assert ids == [ids[0]] + ids[1..];
    }
  }

  /** `parse_mentions` reads back exactly the ids of a rendered mention list,
      in order, when the separator holds no `<`. */
  lemma {:induction false} ParseMentionList(ids: seq<u64>, sep: string, t: string)
    requires '<' !in sep
    ensures ParseMentions(MentionList(ids, sep) + t) == ids + ParseMentions(t)
  {
    if |ids| == 0 {
      assert MentionList(ids, sep) + t == t;
    } else if |ids| == 1 {
      MentionListUnfold(ids, sep);
      ParseMentionFirst(ids[0], t);
      assert ids == [ids[0]];
    } else {
      ParseMentionList(ids[1..], sep, t);
      ParseMentionListStep(ids, sep, t);
    }
  }

  lemma ParseMentionListAlone(ids: seq<u64>, sep: string)
    requires '<' !in sep
    ensures ParseMentions(MentionList(ids, sep)) == ids
  {
    ParseMentionList(ids, sep, "");
    assert MentionList(ids, sep) + "" == MentionList(ids, sep);
  }
}
