/** The yes/no poll ledger (`PollManager`) and the arithmetic of the `/poll`
    command around it: duration and end time, the vote choice carried by a
    button id, the click handler and the final totals. */
module Polls {
  import opened JsValues
  import opened OrderedMaps

  /** What `createPoll` is given. */
  datatype PollData = PollData(question: string, authorId: string, channelId: string, guildId: string, endTime: int)

  /** One poll: its data and the two voter sets. */
  datatype Poll = Poll(question: string, authorId: string, channelId: string, guildId: string, endTime: int,
                       yes: set<string>, no: set<string>)
  {
    /** No voter is on both sides. */
    predicate Consistent() { yes !! no }
  }

  /** `{yes, no}` as `vote` returns it. */
  datatype Tally = Tally(yes: nat, no: nat)

  /** `{question, yes, no, total}` as `getResults` returns it. */
  datatype PollResults = PollResults(question: string, yes: nat, no: nat, total: nat)

  /** One element of the list `getActivePollsToEnd` returns. */
  datatype EndingPoll = EndingPoll(messageId: string, results: Option<PollResults>)

  function NewPoll(data: PollData): (p: Poll)
    ensures p.yes == {} && p.no == {} && p.Consistent()
    ensures p.question == data.question && p.endTime == data.endTime
  {
    Poll(data.question, data.authorId, data.channelId, data.guildId, data.endTime, {}, {})
  }

  /** A vote choice the ledger accepts. */
  predicate ValidChoice(choice: Option<string>)
  {
    choice == Some("yes") || choice == Some("no")
  }

  /** The poll after `userId` votes `choice`: off both sides, then onto one. */
  function VoteOn(p: Poll, userId: string, choice: string): (r: Poll)
    requires choice == "yes" || choice == "no"
    ensures p.Consistent() ==> r.Consistent()
    ensures choice == "yes" ==> userId in r.yes && userId !in r.no
    ensures choice == "no" ==> userId in r.no && userId !in r.yes
    ensures forall v :: v != userId ==> (v in r.yes <==> v in p.yes) && (v in r.no <==> v in p.no)
    ensures r == p.(yes := r.yes, no := r.no)
  {
    var yes := p.yes - {userId};
    var no := p.no - {userId};
    if choice == "yes" then p.(yes := yes + {userId}, no := no) else p.(yes := yes, no := no + {userId})
  }

  function ResultsOf(p: Poll): (r: PollResults)
    ensures r.question == p.question && r.yes == |p.yes| && r.no == |p.no|
    ensures r.total == r.yes + r.no
  {
    PollResults(p.question, |p.yes|, |p.no|, |p.yes| + |p.no|)
  }

  /** With no voter on both sides, the total counts distinct voters. */
  lemma TotalCountsVoters(p: Poll)
    requires p.Consistent()
    ensures ResultsOf(p).total == |p.yes + p.no|
  {
  }

  /** Repeating a vote changes nothing. */
  lemma VoteIdempotent(p: Poll, userId: string, choice: string)
    requires choice == "yes" || choice == "no"
    ensures VoteOn(VoteOn(p, userId, choice), userId, choice) == VoteOn(p, userId, choice)
  {
  }

  /** Switching sides moves exactly one count. */
  lemma {:induction false} VoteSwitch(p: Poll, userId: string)
    requires p.Consistent() && userId in p.yes
    ensures |VoteOn(p, userId, "no").yes| == |p.yes| - 1
    ensures |VoteOn(p, userId, "no").no| == |p.no| + 1
    ensures ResultsOf(VoteOn(p, userId, "no")).total == ResultsOf(p).total
  {
    var r := VoteOn(p, userId, "no");
    assert r.yes == p.yes - {userId};
    assert r.no == p.no + {userId};
  }

  /** A first vote adds one to the chosen side and to the total. */
  lemma {:induction false} FirstVoteCounts(p: Poll, userId: string, choice: string)
    requires choice == "yes" || choice == "no"
    requires userId !in p.yes && userId !in p.no
    ensures ResultsOf(VoteOn(p, userId, choice)).total == ResultsOf(p).total + 1
  {
    var r := VoteOn(p, userId, choice);
    assert p.yes - {userId} == p.yes;
    assert p.no - {userId} == p.no;
  }

  /** Every poll in the ledger keeps its voters on one side only. */
  ghost predicate AllConsistent(polls: OMap<string, Poll>)
  {
    polls.Valid() && forall id :: id in polls.table ==> polls.table[id].Consistent()
  }

  lemma ConsistentAfterRemoval(polls: OMap<string, Poll>, drop: set<string>)
    requires AllConsistent(polls)
    ensures AllConsistent(polls.RemoveAll(drop))
  {
  }

  /** The polls due at `now` among `keys`, in iteration order, with their results. */
  function DueAmong(keys: seq<string>, table: map<string, Poll>, now: int): (r: seq<EndingPoll>)
    requires forall k :: k in keys ==> k in table
    ensures |r| <= |keys|
    ensures forall e :: e in r ==> e.messageId in keys && e.messageId in table && table[e.messageId].endTime <= now &&
                                    e.results == Some(ResultsOf(table[e.messageId]))
  {
    if keys == [] then []
    else
      var last := keys[|keys| - 1];
      DueAmong(keys[..|keys| - 1], table, now) +
        (if table[last].endTime <= now then [EndingPoll(last, Some(ResultsOf(table[last])))] else [])
  }

  /** The message ids of the polls due at `now`. */
  function DueIds(polls: OMap<string, Poll>, now: int): (r: set<string>)
    ensures forall id :: id in r <==> id in polls.table && polls.table[id].endTime <= now
  {
    set id | id in polls.table && polls.table[id].endTime <= now
  }

  /** The ids due among the first keys scanned. */
  function DueIdsAmong(keys: seq<string>, table: map<string, Poll>, now: int): (r: set<string>)
    ensures forall id :: id in r <==> id in keys && id in table && table[id].endTime <= now
  {
    set id | id in keys && id in table && table[id].endTime <= now
  }

  /** Every poll due is reported, and exactly as many reports as polls due. */
  lemma DueAmongReportsEach(keys: seq<string>, table: map<string, Poll>, now: int)
    requires forall k :: k in keys ==> k in table
    requires NoDup(keys)
    ensures forall id :: id in keys && table[id].endTime <= now ==>
              EndingPoll(id, Some(ResultsOf(table[id]))) in DueAmong(keys, table, now)
    ensures |DueAmong(keys, table, now)| == |DueIdsAmong(keys, table, now)|
  {
    DueAmongHasEach(keys, table, now);
    DueAmongCount(keys, table, now);
  }

  lemma {:induction false} DueAmongHasEach(keys: seq<string>, table: map<string, Poll>, now: int)
    requires forall k :: k in keys ==> k in table
    ensures forall id :: id in keys && table[id].endTime <= now ==>
              EndingPoll(id, Some(ResultsOf(table[id]))) in DueAmong(keys, table, now)
  {
    if keys != [] {
      var init := keys[..|keys| - 1];
      var last := keys[|keys| - 1];
      forall id
        ensures id in keys <==> id in init || id == last
      {
        InitMembers(keys, id);
      }
      DueAmongHasEach(init, table, now);
    }
  }

  lemma {:induction false} DueAmongCount(keys: seq<string>, table: map<string, Poll>, now: int)
    requires forall k :: k in keys ==> k in table
    requires NoDup(keys)
    ensures |DueAmong(keys, table, now)| == |DueIdsAmong(keys, table, now)|
  {
    if keys != [] {
      var init := keys[..|keys| - 1];
      var last := keys[|keys| - 1];
      DueIdsSnoc(keys, table, now);
      DueAmongCount(init, table, now);
      if table[last].endTime <= now {
        assert |DueAmong(keys, table, now)| == |DueAmong(init, table, now)| + 1;
      } else {
        assert |DueAmong(keys, table, now)| == |DueAmong(init, table, now)|;
      }
    }
  }

  /** The due ids among `keys` are those among all but the last key, plus the
      last key when it is due and new. */
  lemma DueIdsSnoc(keys: seq<string>, table: map<string, Poll>, now: int)
    requires keys != [] && NoDup(keys)
    requires forall k :: k in keys ==> k in table
    ensures var init := keys[..|keys| - 1];
            var last := keys[|keys| - 1];
            && NoDup(init) && (forall k :: k in init ==> k in table)
            && last !in DueIdsAmong(init, table, now)
            && DueIdsAmong(keys, table, now) ==
                 if table[last].endTime <= now then DueIdsAmong(init, table, now) + {last}
                 else DueIdsAmong(init, table, now)
  {
    var init := keys[..|keys| - 1];
    var last := keys[|keys| - 1];
    forall id
      ensures id in keys <==> id in init || id == last
    {
      InitMembers(keys, id);
    }
    assert NoDup(init) && last !in init by {
      forall j | 0 <= j < |init|
        ensures init[j] == keys[j] && init[j] != last
      {
      }
    }
  }

  /** One step of the end-of-poll scan over `start.keys`: the ids ended so far. */
  lemma DueStep(start: OMap<string, Poll>, i: int, now: int)
    requires start.Valid() && 0 <= i < |start.keys|
    ensures var id := start.keys[i];
            var before := DueIdsAmong(start.keys[..i], start.table, now);
            && id !in before
            && id in start.RemoveAll(before).table
            && start.RemoveAll(before).table[id] == start.table[id]
            && DueIdsAmong(start.keys[..i + 1], start.table, now) ==
                 (if start.table[id].endTime <= now then before + {id} else before)
  {
    var ks := start.keys[..i + 1];
    assert ks[..i] == start.keys[..i];
    assert NoDup(ks) by {
      forall a, b | 0 <= a < b < |ks|
        ensures ks[a] != ks[b]
      {
        assert ks[a] == start.keys[a] && ks[b] == start.keys[b];
      }
    }
    DueIdsSnoc(ks, start.table, now);
  }

  /** One step of the end-of-poll scan over `start.keys`: the polls reported so far. */
  lemma DueReportStep(start: OMap<string, Poll>, i: int, now: int)
    requires start.Valid() && 0 <= i < |start.keys|
    ensures var id := start.keys[i];
            DueAmong(start.keys[..i + 1], start.table, now) ==
              DueAmong(start.keys[..i], start.table, now) +
                (if start.table[id].endTime <= now then [EndingPoll(id, Some(ResultsOf(start.table[id])))] else [])
  {
    PrefixSnoc(start.keys, i);
  }

  /** After the end-of-poll scan has visited the first `i` keys of `start`:
      the due polls among them are ended and reported, in order. */
  ghost predicate EndedUpTo(start: OMap<string, Poll>, now: int, i: int, ended: set<string>,
                            polls: OMap<string, Poll>, ending: seq<EndingPoll>)
  {
    && start.Valid() && 0 <= i <= |start.keys|
    && ended == DueIdsAmong(start.keys[..i], start.table, now)
    && polls == start.RemoveAll(ended)
    && ending == DueAmong(start.keys[..i], start.table, now)
  }

  /** The scan's state after visiting the `i`-th key, given its state before. */
  lemma EndAdvance(start: OMap<string, Poll>, now: int, i: int, ended: set<string>,
                   polls: OMap<string, Poll>, ending: seq<EndingPoll>)
    requires EndedUpTo(start, now, i, ended, polls, ending) && i < |start.keys|
    ensures var id := start.keys[i];
            var poll := start.table[id];
            && id in polls.table && polls.table[id] == poll
            && (poll.endTime <= now ==>
                  EndedUpTo(start, now, i + 1, ended + {id}, polls.Remove(id),
                            ending + [EndingPoll(id, Some(ResultsOf(poll)))]))
            && (poll.endTime > now ==> EndedUpTo(start, now, i + 1, ended, polls, ending))
  {
    DueStep(start, i, now);
    DueReportStep(start, i, now);
    RemoveAllStep(start, ended, start.keys[i]);
  }

  /** The finished scan has ended exactly the polls due. */
  lemma EndedAll(start: OMap<string, Poll>, now: int, i: int, ended: set<string>,
                 polls: OMap<string, Poll>, ending: seq<EndingPoll>)
    requires EndedUpTo(start, now, i, ended, polls, ending) && i == |start.keys|
    ensures polls == start.RemoveAll(DueIds(start, now))
    ensures ending == DueAmong(start.keys, start.table, now)
  {
    assert start.keys[..|start.keys|] == start.keys;
    assert ended == DueIds(start, now);
  }

  class PollManager {
    var polls: OMap<string, Poll>

    ghost predicate Valid()
      reads this
    {
      AllConsistent(polls)
    }

    constructor ()
      ensures Valid() && polls == EmptyMap()
    {
      polls := EmptyMap();
    }

    /** `createPoll(messageId, data)`: a fresh poll, replacing any poll of that message. */
    method CreatePoll(messageId: string, data: PollData) returns (p: Poll)
      requires Valid()
      modifies this
      ensures Valid()
      ensures p == NewPoll(data)
      ensures polls == old(polls).Put(messageId, p)
    {
      p := NewPoll(data);
      polls := polls.Put(messageId, p);
    }

    /** `getPoll(messageId)`. */
    function GetPoll(messageId: string): (r: Option<Poll>)
      reads this
      ensures r.Some? <==> messageId in polls.table
      ensures r.Some? ==> r.value == polls.table[messageId]
    {
      if messageId in polls.table then Some(polls.table[messageId]) else None
    }

    /** `vote(messageId, userId, choice)`: null for an unknown poll or a choice
        other than yes/no; otherwise the vote is recorded and the side sizes
        returned. */
    method Vote(messageId: string, userId: string, choice: Option<string>) returns (r: Option<Tally>)
      requires Valid()
      modifies this
      ensures Valid()
      ensures r.None? <==> messageId !in old(polls).table || !ValidChoice(choice)
      ensures r.None? ==> polls == old(polls)
      ensures r.Some? ==>
                var p := VoteOn(old(polls).table[messageId], userId, choice.value);
                && polls == old(polls).Put(messageId, p)
                && r.value == Tally(|p.yes|, |p.no|)
    {
      var poll := GetPoll(messageId);
      if poll.None? || !ValidChoice(choice) {
        return None;
      }
      var p := VoteOn(poll.value, userId, choice.value);
      polls := polls.Put(messageId, p);
      r := Some(Tally(|p.yes|, |p.no|));
    }

    /** `getResults(messageId)`. */
    function GetResults(messageId: string): (r: Option<PollResults>)
      reads this
      requires Valid()
      ensures r.None? <==> messageId !in polls.table
      ensures r.Some? ==> r.value.total == r.value.yes + r.value.no
      ensures r.Some? ==> r.value == ResultsOf(polls.table[messageId])
      ensures r.Some? ==> r.value.total == |polls.table[messageId].yes + polls.table[messageId].no|
    {
      if messageId in polls.table then
        TotalCountsVoters(polls.table[messageId]);
        Some(ResultsOf(polls.table[messageId]))
      else None
    }

    /** `endPoll(messageId)`: the poll's results, and the poll is gone. */
    method EndPoll(messageId: string) returns (r: Option<PollResults>)
      requires Valid()
      modifies this
      ensures Valid()
      ensures r == old(GetResults(messageId))
      ensures polls == old(polls).Remove(messageId)
    {
      r := GetResults(messageId);
      polls := polls.Remove(messageId);
    }

    /** `getActivePollsToEnd(now)`: ends every poll whose end time has come, in
        iteration order, and reports each with its results. */
    method GetActivePollsToEnd(now: int) returns (ending: seq<EndingPoll>)
      requires Valid()
      modifies this
      ensures Valid()
      ensures polls == old(polls).RemoveAll(DueIds(old(polls), now))
      ensures ending == DueAmong(old(polls).keys, old(polls).table, now)
    {
      var snapshot := polls.keys;
      ghost var start := polls;
      ghost var ended: set<string> := {};
      ending := [];
      RemoveAllAbsent(start, {});
      var i := 0;
      while i < |snapshot|
        invariant Valid() && EndedUpTo(start, now, i, ended, polls, ending)
      {
        var messageId := snapshot[i];
        EndAdvance(start, now, i, ended, polls, ending);
        ghost var poll := polls.table[messageId];
        if polls.table[messageId].endTime <= now {
          var results := EndPoll(messageId);
          assert results == Some(ResultsOf(poll));
          ending := ending + [EndingPoll(messageId, results)];
          ended := ended + {messageId};
        }
        i := i + 1;
      }
      EndedAll(start, now, i, ended, polls, ending);
    }
  }

  // ---------------------------------------------------------------------------
  // The /poll command

  const HourMs := 60 * 60 * 1000

  /** `(days * 24 + hours)` hours in milliseconds, with `getInteger(..) || d`
      defaults: a missing or zero `days` is 1, a missing `hours` is 0. */
  function PollDuration(days: Option<int>, hours: Option<int>): (ms: int)
    ensures var d := if days.Some? && days.value != 0 then days.value else 1;
            var h := if hours.Some? then hours.value else 0;
            ms == (d * 24 + h) * HourMs
  {
    var d := if days.Some? && days.value != 0 then days.value else 1;
    var h := if hours.Some? && hours.value != 0 then hours.value else 0;
    (d * 24 + h) * HourMs
  }

  /** Within the declared option ranges (days 1-6, hours 0-23) a poll runs
      between one day and 6 days 23 hours. */
  lemma PollDurationBounds(days: Option<int>, hours: Option<int>)
    requires days.Some? ==> 1 <= days.value <= 6
    requires hours.Some? ==> 0 <= hours.value <= 23
    ensures 24 * HourMs <= PollDuration(days, hours) <= (6 * 24 + 23) * HourMs
  {
  }

  /** `Date.now() + duration`. */
  function PollEndTime(now: int, days: Option<int>, hours: Option<int>): (t: int)
    ensures t - now == PollDuration(days, hours)
  {
    now + PollDuration(days, hours)
  }

  /** `customId.split('_')[1]`: the text between the first `_` and the next
      one (or the end); undefined when there is no `_`. */
  function ChoiceFromCustomId(customId: string): (r: Option<string>)
    ensures r.None? <==> '_' !in customId
    ensures r.Some? ==> '_' !in r.value
  {
    if '_' !in customId then None
    else
      var i := Underscore(customId);
      var rest := customId[i + 1..];
      if '_' in rest then Some(rest[..Underscore(rest)]) else Some(rest)
  }

  /** The index of the first `_`. */
  function Underscore(s: string): (i: nat)
    requires '_' in s
    ensures i < |s| && s[i] == '_' && '_' !in s[..i]
  {
    if s[0] == '_' then 0
    else
      assert '_' in s[1..] by {
        var j :| 0 <= j < |s| && s[j] == '_';
        assert s[1..][j - 1] == '_';
      }
      var k := Underscore(s[1..]);
      assert s[..k + 1] == [s[0]] + s[1..][..k];
      k + 1
  }

  /** In `prefix_rest` with no `_` inside `prefix`, the first `_` ends the prefix. */
  lemma {:induction false} UnderscoreAfter(prefix: string, rest: string)
    requires '_' !in prefix
    ensures '_' in prefix + "_" + rest
    ensures Underscore(prefix + "_" + rest) == |prefix|
  {
    var s := prefix + "_" + rest;
    assert s[|prefix|] == '_';
    if prefix != [] {
      assert s[1..] == prefix[1..] + "_" + rest;
      assert prefix[0] in prefix;
      UnderscoreAfter(prefix[1..], rest);
    }
  }

  /** The ids the poll buttons carry give back their choice: `prefix_choice`
      with no `_` in either part yields `choice`. */
  lemma ChoiceRoundTrip(prefix: string, choice: string)
    requires '_' !in prefix && '_' !in choice
    ensures ChoiceFromCustomId(prefix + "_" + choice) == Some(choice)
  {
    var s := prefix + "_" + choice;
    UnderscoreAfter(prefix, choice);
    assert s[|prefix| + 1..] == choice;
  }

  /** What a button click on a poll message leads to. */
  datatype ClickOutcome = NotAButton | PollEnded | Updated(tally: Tally)

  /** The collector's `collect` handler: a click that the ledger refuses is
      answered with "This poll has ended", otherwise the tallies are shown. */
  method HandleVoteClick(manager: PollManager, messageId: string, userId: string, isButton: bool, customId: string)
    returns (outcome: ClickOutcome)
    requires manager.Valid()
    modifies manager
    ensures manager.Valid()
    ensures !isButton ==> outcome == NotAButton && manager.polls == old(manager.polls)
    ensures isButton ==>
              (outcome == PollEnded <==> messageId !in old(manager.polls).table || !ValidChoice(ChoiceFromCustomId(customId)))
    ensures outcome == PollEnded ==> manager.polls == old(manager.polls)
    ensures outcome.Updated? ==>
              manager.polls == old(manager.polls).Put(messageId,
                VoteOn(old(manager.polls).table[messageId], userId, ChoiceFromCustomId(customId).value))
    ensures outcome.Updated? ==>
              messageId in manager.polls.table &&
              var p := manager.polls.table[messageId];
              outcome.tally == Tally(|p.yes|, |p.no|) && userId in p.yes + p.no
  {
    if !isButton {
      return NotAButton;
    }
    var choice := ChoiceFromCustomId(customId);
    var results := manager.Vote(messageId, userId, choice);
    if results.None? {
      return PollEnded;
    }
    outcome := Updated(results.value);
  }

  /** `results.yes + results.no` in the `end` handler: the number of distinct voters. */
  function FinalTotalVotes(results: PollResults): (total: int)
    ensures total == results.yes + results.no
  {
    results.yes + results.no
  }

  lemma FinalTotalIsVoters(p: Poll)
    requires p.Consistent()
    ensures FinalTotalVotes(ResultsOf(p)) == |p.yes + p.no| == ResultsOf(p).total
  {
  }
}
