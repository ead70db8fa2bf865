/**
 * The `Poll` class of data/rbot/plugins/poll.rb: a question, its lettered
 * answers with their vote counts, the voters and the choice each made, and
 * the not-running / running / stopped life cycle.
 *
 * `PollData` is the value of a poll (what the bot's registry stores); the
 * functions over it say what each method does, and the class `Poll` holds
 * the same fields and is proved to move them exactly so.
 */
module Polls {
  import opened Wrappers
  import opened Text

  // ---------------------------------------------------------------------
  // Answer letters: "A".next! and so on
  // ---------------------------------------------------------------------

  predicate AllUpper(s: string) {
    forall k :: 0 <= k < |s| ==> IsUpper(s[k])
  }

  function Letter(d: nat): (c: char)
    requires d < 26
    ensures IsUpper(c)
  {
    ('A' as int + d) as char
  }

  /** The letter of the answer at index `i`: "A" .. "Z", "AA", "AB", ... */
  function Label(i: nat): (l: string)
    ensures l != [] && AllUpper(l)
    ensures |l| == 1 <==> i < 26
    decreases i
  {
    if i < 26 then [Letter(i)] else Label(i / 26 - 1) + [Letter(i % 26)]
  }

  /** String#succ on a non-empty string of capital letters ("AZ" -> "BA", "ZZ" -> "AAA"). */
  function Succ(s: string): (r: string)
    requires s != [] && AllUpper(s)
    decreases |s|
  {
    var last := s[|s| - 1];
    if last < 'Z' then s[..|s| - 1] + [(last as int + 1) as char]
    else if |s| == 1 then "AA"
    else Succ(s[..|s| - 1]) + "A"
  }

  /** Stepping the index with String#succ walks through the labels in order. */
  lemma {:induction false} LabelSucc(i: nat)
    ensures Succ(Label(i)) == Label(i + 1)
    decreases i, 1
  {
    if i < 25 {
      SuccBumpsLast([], i);
    } else if i == 25 {
      assert Label(26) == Label(0) + [Letter(0)];
    } else if i % 26 < 25 {
      LabelSuccSameHead(i);
    } else {
      LabelSuccCarry(i);
    }
  }

  lemma LabelSuccSameHead(i: nat)
    requires i >= 26 && i % 26 < 25
    ensures Succ(Label(i)) == Label(i + 1)
  {
    LabelDigits(i);
    LabelDigits(i + 1);
    NextDigits(i, true);
    SuccBumpsLast(Label(i / 26 - 1), i % 26);
  }

  lemma {:induction false} LabelSuccCarry(i: nat)
    requires i >= 26 && i % 26 == 25
    ensures Succ(Label(i)) == Label(i + 1)
    decreases i, 0
  {
    LabelDigits(i);
    LabelDigits(i + 1);
    NextDigits(i, false);
    SuccCarries(Label(i / 26 - 1));
    LabelSucc(i / 26 - 1);
  }

  lemma LabelDigits(i: nat)
    requires i >= 26
    ensures Label(i) == Label(i / 26 - 1) + [Letter(i % 26)]
  {
  }

  lemma NextDigits(i: nat, sameHead: bool)
    requires sameHead <==> i % 26 < 25
    ensures sameHead ==> (i + 1) / 26 == i / 26 && (i + 1) % 26 == i % 26 + 1
    ensures !sameHead ==> (i + 1) / 26 == i / 26 + 1 && (i + 1) % 26 == 0
  {
  }

  lemma SuccBumpsLast(prefix: string, c: nat)
    requires AllUpper(prefix) && c < 25
    ensures Succ(prefix + [Letter(c)]) == prefix + [Letter(c + 1)]
  {
    var s := prefix + [Letter(c)];
    assert s[..|s| - 1] == prefix;
  }

  lemma SuccCarries(prefix: string)
    requires prefix != [] && AllUpper(prefix)
    ensures Succ(prefix + [Letter(25)]) == Succ(prefix) + "A"
  {
    var s := prefix + [Letter(25)];
    assert s[..|s| - 1] == prefix;
  }

  /** Different indices get different letters, so answer keys never clash. */
  lemma {:induction false} LabelInjective(i: nat, j: nat)
    requires Label(i) == Label(j)
    ensures i == j
    decreases i
  {
    if i < 26 || j < 26 {
      assert |Label(i)| == 1 && |Label(j)| == 1;
      assert Label(i)[0] == Letter(i) && Label(j)[0] == Letter(j);
    } else {
      var li, lj := Label(i), Label(j);
      assert li[|li| - 1] == Letter(i % 26) && lj[|lj| - 1] == Letter(j % 26);
      assert li[..|li| - 1] == Label(i / 26 - 1);
      assert lj[..|lj| - 1] == Label(j / 26 - 1);
      LabelInjective(i / 26 - 1, j / 26 - 1);
      assert i == 26 * (i / 26) + i % 26 && j == 26 * (j / 26) + j % 26;
    }
  }

  // ---------------------------------------------------------------------
  // The value of a poll
  // ---------------------------------------------------------------------

  /** One entry of `@answers`: its letter (the hash key), `:value` and `:count`. */
  datatype Answer = Answer(letter: string, value: string, count: nat)

  /**
   * `poll.outcome` as count_votes sets it: nobody voted; the top two counts
   * tie (with the answers that got votes, most votes first); or a winner with
   * its count and the percentage the message shows.
   */
  datatype Outcome =
    | NobodyVoted
    | NoClearWinner(tally: seq<(string, nat)>)
    | Winner(letter: string, value: string, count: nat, percent: int)

  /**
   * The instance variables of a Poll. `id` is nil until the plugin sets it;
   * `started` and `endsAt` are nil until `start!`.
   */
  datatype PollData = PollData(
    id: Option<int>,
    author: string,
    channel: string,
    question: string,
    duration: int,
    running: bool,
    started: Option<int>,
    endsAt: Option<int>,
    answers: seq<Answer>,
    voters: map<string, string>,
    outcome: Option<Outcome>)

  /** Answer `k` has key Label(k): the keys are "A", "B", ... in input order. */
  predicate Labelled(answers: seq<Answer>) {
    forall k :: 0 <= k < |answers| ==> answers[k].letter == Label(k)
  }

  function Letters(answers: seq<Answer>): set<string> {
    set k | 0 <= k < |answers| :: answers[k].letter
  }

  /** The sum of the counts. */
  function Total(answers: seq<Answer>): nat {
    if answers == [] then 0 else answers[0].count + Total(answers[1..])
  }

  /** The voters who chose `letter`. */
  function VotersFor(voters: map<string, string>, letter: string): set<string> {
    set v | v in voters && voters[v] == letter
  }

  /**
   * The tally agrees with the voters: the counts add up to the number of
   * voters, every recorded choice is an answer key, and each answer's count
   * is the number of voters who chose it.
   */
  predicate Tallied(p: PollData) {
    && Total(p.answers) == |p.voters|
    && p.voters.Values <= Letters(p.answers)
    && forall k :: 0 <= k < |p.answers| ==> p.answers[k].count == |VotersFor(p.voters, p.answers[k].letter)|
  }

  /** What every poll satisfies from its creation on. */
  predicate WellFormed(p: PollData) {
    Labelled(p.answers) && Tallied(p)
  }

  lemma {:induction false} TotalOfZeros(answers: seq<Answer>)
    requires forall k :: 0 <= k < |answers| ==> answers[k].count == 0
    ensures Total(answers) == 0
  {
    if answers != [] {
      TotalOfZeros(answers[1..]);
    }
  }

  function FreshAnswers(values: seq<string>): (answers: seq<Answer>)
    ensures |answers| == |values|
    ensures forall k :: 0 <= k < |values| ==> answers[k] == Answer(Label(k), values[k], 0)
  {
    seq(|values|, k requires 0 <= k < |values| => Answer(Label(k), values[k], 0))
  }

  /** Poll#initialize. */
  function NewPoll(author: string, channel: string, question: string,
                   values: seq<string>, duration: int): PollData
  {
    PollData(None, author, channel, question, duration, false, None, None,
             FreshAnswers(values), map[], None)
  }

  /**
   * A new poll is not running and has no voters; its answers are the given
   * values in input order under the keys "A", "B", ..., each with count 0;
   * and its tally is consistent.
   */
  lemma NewPollIsFresh(author: string, channel: string, question: string,
                       values: seq<string>, duration: int)
    ensures var p := NewPoll(author, channel, question, values, duration);
            && !p.running && p.voters == map[] && p.started.None? && p.endsAt.None?
            && |p.answers| == |values| && Total(p.answers) == 0
            && (forall k :: 0 <= k < |values| ==>
                  p.answers[k].letter == Label(k) && p.answers[k].value == values[k]
                  && p.answers[k].count == 0)
            && WellFormed(p)
  {
    var p := NewPoll(author, channel, question, values, duration);
    TotalOfZeros(p.answers);
    assert p.voters.Values == {};
    forall k | 0 <= k < |p.answers|
      ensures p.answers[k].count == |VotersFor(p.voters, p.answers[k].letter)|
    {
      assert VotersFor(p.voters, p.answers[k].letter) == {};
    }
  }

  /** Poll#start!: a no-op on a running poll, else running until started + duration. */
  function Started(p: PollData, now: int): PollData {
    if p.running then p
    else p.(running := true, started := Some(now), endsAt := Some(now + p.duration))
  }

  /** Poll#stop!: a no-op when already stopped. */
  function Stopped(p: PollData): PollData {
    if !p.running then p else p.(running := false)
  }

  /**
   * start! and stop! change only the running flag and the times: answers,
   * voters and the rest stay, so the tally stays consistent. start! is a no-op
   * on a running poll and stop! on a stopped one, so both are idempotent.
   */
  lemma StartStopKeepTally(p: PollData, now: int, later: int)
    ensures Started(p, now).answers == p.answers && Started(p, now).voters == p.voters
    ensures Stopped(p).answers == p.answers && Stopped(p).voters == p.voters
    ensures WellFormed(p) ==> WellFormed(Started(p, now)) && WellFormed(Stopped(p))
    ensures !p.running ==> (Started(p, now).running && Started(p, now).started == Some(now)
                            && Started(p, now).endsAt == Some(now + p.duration))
    ensures Started(Started(p, now), later) == Started(p, now)
    ensures !Stopped(p).running && Stopped(Stopped(p)) == Stopped(p)
  {
  }

  /** What record_vote answers. */
  datatype VoteReply =
    | PollClosed
    | AlreadyVoted(choice: string)
    | Recorded(letter: string, value: string)
    | NoSuchOption(letter: string)

  /** `@answers.has_key? letter`, and where. */
  function FindLetter(answers: seq<Answer>, letter: string): (r: Option<nat>)
    ensures r.Some? ==> r.value < |answers| && answers[r.value].letter == letter
    ensures r.None? <==> letter !in Letters(answers)
  {
    if answers == [] then None
    else if answers[0].letter == letter then Some(0)
    else
      match FindLetter(answers[1..], letter)
      case None =>
        assert Letters(answers) == {answers[0].letter} + Letters(answers[1..]) by {
          forall l | l in Letters(answers) ensures l in {answers[0].letter} + Letters(answers[1..]) {
            var k :| 0 <= k < |answers| && answers[k].letter == l;
            if k > 0 { assert answers[1..][k - 1] == answers[k]; }
          }
        }
        None
      case Some(k) => Some(k + 1)
  }

  function Bump(answers: seq<Answer>, k: nat): seq<Answer>
    requires k < |answers|
  {
    answers[k := answers[k].(count := answers[k].count + 1)]
  }

  /**
   * Poll#record_vote: a closed poll and a second vote by the same voter are
   * turned away; otherwise the choice is upcased, and a known letter gets one
   * more vote and the voter is recorded with it.
   */
  function Vote(p: PollData, voter: string, choice: string): (r: (VoteReply, PollData))
  {
    if !p.running then (PollClosed, p)
    else if voter in p.voters then (AlreadyVoted(p.voters[voter]), p)
    else
      var c := Upcase(choice);
      match FindLetter(p.answers, c)
      case None => (NoSuchOption(c), p)
      case Some(k) =>
        (Recorded(c, p.answers[k].value),
         p.(answers := Bump(p.answers, k), voters := p.voters[voter := c]))
  }

  /** A vote on a closed poll, or a repeated vote, changes nothing. */
  lemma VoteRejected(p: PollData, voter: string, choice: string)
    requires !p.running || voter in p.voters
    ensures Vote(p, voter, choice).1 == p
    ensures Vote(p, voter, choice).0 ==
            if !p.running then PollClosed else AlreadyVoted(p.voters[voter])
  {
  }

  /**
   * A vote for a letter that is a key (in any case) adds exactly one to that
   * answer, leaves every other count alone and records the upcased letter.
   */
  lemma VoteKnownLetter(p: PollData, voter: string, choice: string, k: nat)
    requires p.running && voter !in p.voters
    requires Labelled(p.answers) && k < |p.answers| && p.answers[k].letter == Upcase(choice)
    ensures var (reply, q) := Vote(p, voter, choice);
            && reply == Recorded(Upcase(choice), p.answers[k].value)
            && |q.answers| == |p.answers|
            && q.answers[k].count == p.answers[k].count + 1
            && (forall j :: 0 <= j < |p.answers| && j != k ==> q.answers[j] == p.answers[j])
            && q.voters == p.voters[voter := Upcase(choice)]
            && q.running == p.running && q.question == p.question
  {
    var r := FindLetter(p.answers, Upcase(choice));
    assert Upcase(choice) in Letters(p.answers);
    LabelInjective(r.value, k);
  }

  /** A letter that is not a key is refused and changes nothing. */
  lemma VoteUnknownLetter(p: PollData, voter: string, choice: string)
    requires p.running && voter !in p.voters
    requires forall k :: 0 <= k < |p.answers| ==> p.answers[k].letter != Upcase(choice)
    ensures Vote(p, voter, choice) == (NoSuchOption(Upcase(choice)), p)
  {
    assert Upcase(choice) !in Letters(p.answers);
  }

  lemma {:induction false} TotalBump(answers: seq<Answer>, k: nat)
    requires k < |answers|
    ensures Total(Bump(answers, k)) == Total(answers) + 1
    decreases k
  {
    if k == 0 {
      assert Bump(answers, k)[1..] == answers[1..];
    } else {
      assert Bump(answers, k)[1..] == Bump(answers[1..], k - 1);
      TotalBump(answers[1..], k - 1);
    }
  }

  lemma BumpKeepsLetters(answers: seq<Answer>, k: nat)
    requires k < |answers|
    ensures Letters(Bump(answers, k)) == Letters(answers)
    ensures Labelled(answers) ==> Labelled(Bump(answers, k))
  {
    var b := Bump(answers, k);
    assert forall j :: 0 <= j < |b| ==> b[j].letter == answers[j].letter;
    assert forall l :: l in Letters(b) ==> l in Letters(answers);
    assert forall l :: l in Letters(answers) ==> l in Letters(b);
  }

  lemma AddVoterKeepsChoices(voters: map<string, string>, voter: string, c: string, letters: set<string>)
    requires voters.Values <= letters && c in letters
    ensures voters[voter := c].Values <= letters
  {
    var w := voters[voter := c];
    forall l | l in w.Values ensures l in letters {
      var v :| v in w && w[v] == l;
      if v != voter { assert voters[v] == l; }
    }
  }

  lemma AddVoterCounts(voters: map<string, string>, voter: string, c: string, l: string)
    requires voter !in voters
    ensures l == c ==> VotersFor(voters[voter := c], l) == VotersFor(voters, l) + {voter}
    ensures l != c ==> VotersFor(voters[voter := c], l) == VotersFor(voters, l)
    ensures |voters[voter := c]| == |voters| + 1
  {
    AddVoterSize(voters, voter, c);
    var after := voters[voter := c];
    forall v ensures v in VotersFor(after, l) <==> v in VotersFor(voters, l) || (v == voter && l == c) {
      if v != voter {
        assert v in after <==> v in voters;
      }
    }
  }

  lemma AddVoterSize(voters: map<string, string>, voter: string, c: string)
    requires voter !in voters
    ensures |voters[voter := c]| == |voters| + 1
  {
    assert voters[voter := c].Keys == voters.Keys + {voter};
  }

  /** Every vote keeps the tally consistent with the voters. */
  lemma VotePreservesTally(p: PollData, voter: string, choice: string)
    requires WellFormed(p)
    ensures WellFormed(Vote(p, voter, choice).1)
  {
    if p.running && voter !in p.voters {
      var c := Upcase(choice);
      var r := FindLetter(p.answers, c);
      if r.Some? {
        VoteForLetter(p, voter, r.value);
      }
    }
  }

  /** One more vote for the answer at `k`, recorded under its letter. */
  lemma VoteForLetter(p: PollData, voter: string, k: nat)
    requires WellFormed(p) && voter !in p.voters && k < |p.answers|
    ensures WellFormed(p.(answers := Bump(p.answers, k), voters := p.voters[voter := p.answers[k].letter]))
  {
    var c := p.answers[k].letter;
    var q := p.(answers := Bump(p.answers, k), voters := p.voters[voter := c]);
    TotalBump(p.answers, k);
    BumpKeepsLetters(p.answers, k);
    AddVoterCounts(p.voters, voter, c, c);
    assert c in Letters(p.answers);
    AddVoterKeepsChoices(p.voters, voter, c, Letters(p.answers));
    BumpCounts(p.answers, p.voters, voter, k);
  }

  /** The bumped answer gains the new voter, and every other answer keeps its voters. */
  lemma BumpCounts(answers: seq<Answer>, voters: map<string, string>, voter: string, k: nat)
    requires k < |answers| && Labelled(answers) && voter !in voters
    requires forall j :: 0 <= j < |answers| ==> answers[j].count == |VotersFor(voters, answers[j].letter)|
    ensures var c, bumped := answers[k].letter, Bump(answers, k);
            forall j :: 0 <= j < |bumped| ==> bumped[j].count == |VotersFor(voters[voter := c], bumped[j].letter)|
  {
    var c, bumped := answers[k].letter, Bump(answers, k);
    forall j | 0 <= j < |bumped|
      ensures bumped[j].count == |VotersFor(voters[voter := c], bumped[j].letter)|
    {
      var l := answers[j].letter;
      AddVoterCounts(voters, voter, c, l);
      if j != k && l == c { LabelInjective(j, k); }
    }
  }

  // ---------------------------------------------------------------------
  // The class
  // ---------------------------------------------------------------------

  /** The answers hash of Poll#initialize, built by stepping the key from "A" with next!. */
  method BuildAnswers(values: seq<string>) returns (built: seq<Answer>)
    ensures built == FreshAnswers(values)
  {
    built := [];
    var index := "A";
    var k := 0;
    while k < |values|
      invariant k <= |values| && index == Label(k)
      invariant built == FreshAnswers(values[..k])
    {
      FreshAnswersSnoc(values, k);
      built := built + [Answer(index, values[k], 0)];
      LabelSucc(k);
      index := Succ(index);
      k := k + 1;
    }
    assert values[..k] == values;
  }

  lemma FreshAnswersSnoc(values: seq<string>, k: nat)
    requires k < |values|
    ensures FreshAnswers(values[..k + 1]) == FreshAnswers(values[..k]) + [Answer(Label(k), values[k], 0)]
  {
  }

  class Poll {
    var id: Option<int>
    var author: string
    var channel: string
    var question: string
    var duration: int
    var running: bool
    var started: Option<int>
    var endsAt: Option<int>
    var answers: seq<Answer>
    var voters: map<string, string>
    var outcome: Option<Outcome>

    function Data(): PollData
      reads this
    {
      PollData(id, author, channel, question, duration, running, started, endsAt,
               answers, voters, outcome)
    }

    /** Poll#initialize. */
    constructor(author: string, channel: string, question: string,
                values: seq<string>, duration: int)
      ensures Data() == NewPoll(author, channel, question, values, duration)
    {
      var built := BuildAnswers(values);
      this.id := None;
      this.author := author;
      this.channel := channel;
      this.question := question;
      this.duration := duration;
      this.running := false;
      this.started := None;
      this.endsAt := None;
      this.answers := built;
      this.voters := map[];
      this.outcome := None;
    }

    /** A poll read back from the registry: a fresh object holding the stored value. */
    constructor Load(d: PollData)
      ensures Data() == d
    {
      id, author, channel, question, duration := d.id, d.author, d.channel, d.question, d.duration;
      running, started, endsAt := d.running, d.started, d.endsAt;
      answers, voters, outcome := d.answers, d.voters, d.outcome;
    }

    /** Poll#start!, with the clock reading `now` passed in. */
    method Start(now: int)
      modifies this
      ensures Data() == Started(old(Data()), now)
    {
      if running {
        return;
      }
      started := Some(now);
      endsAt := Some(now + duration);
      running := true;
    }

    /** Poll#stop! */
    method Stop()
      modifies this
      ensures Data() == Stopped(old(Data()))
    {
      if !running {
        return;
      }
      running := false;
    }

    /** Poll#record_vote */
    method RecordVote(voter: string, choice: string) returns (reply: VoteReply)
      modifies this
      ensures (reply, Data()) == Vote(old(Data()), voter, choice)
    {
      if !running {
        return PollClosed;
      }
      if voter in voters {
        return AlreadyVoted(voters[voter]);
      }
      var c := Upcase(choice);
      var found := FindLetter(answers, c);
      if found.None? {
        return NoSuchOption(c);
      }
      var k := found.value;
      answers := answers[k := answers[k].(count := answers[k].count + 1)];
      voters := voters[voter := c];
      return Recorded(c, answers[k].value);
    }
  }
}
