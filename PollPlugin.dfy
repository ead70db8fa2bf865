/**
 * `PollPlugin` of data/rbot/plugins/poll.rb: parsing `poll start`, the
 * per-author limit, id allocation, the vote count that closes a poll, and the
 * `:running` / `:archives` / `:last_poll_id` registry entries.
 *
 * The registry hands out copies (it marshals what it stores), so it is a
 * value here: maps from poll id to `PollData`. The plugin methods load a copy
 * into a `Poll` object, act on it and store the copy back.
 */
module PollPlugin {
  import opened Wrappers
  import opened Text
  import opened Polls

  // ---------------------------------------------------------------------
  // Durations
  // ---------------------------------------------------------------------

  /** MULTIPLIERS: seconds per unit. */
  function Multiplier(unit: string): (m: Option<nat>)
    ensures m.Some? <==> unit in {"seconds", "minutes", "hours", "days", "weeks"}
  {
    if unit == "seconds" then Some(1)
    else if unit == "minutes" then Some(60)
    else if unit == "hours" then Some(60 * 60)
    else if unit == "days" then Some(24 * 60 * 60)
    else if unit == "weeks" then Some(7 * 24 * 60 * 60)
    else None
  }

  /** An empty `for ...` part means the configured default duration. */
  function TargetDuration(durationText: string, defaultDuration: string): string {
    if durationText == "" then defaultDuration else durationText
  }

  datatype DurationError = MissingUnit | UnknownUnit(unit: string)

  /**
   * `val, units = target.split(' ')`, then `val.to_i * MULTIPLIERS[units]`.
   * With fewer than two words `units` is nil and `to_sym` raises: MissingUnit.
   * Words after the second are ignored.
   */
  function ParseDuration(text: string): (r: Result<int, DurationError>)
    ensures |Words(text)| < 2 ==> r == Failure(MissingUnit)
    ensures |Words(text)| >= 2 ==>
              (Multiplier(Words(text)[1]).None? <==> r == Failure(UnknownUnit(Words(text)[1])))
  {
    var ws := Words(text);
    if |ws| < 2 then Failure(MissingUnit)
    else
      match Multiplier(ws[1])
      case None => Failure(UnknownUnit(ws[1]))
      case Some(m) => Success(ToI(ws[0]) * m)
  }

  lemma DigitsHaveNoSpace(s: string)
    requires AllDigits(s)
    ensures NoSpace(s)
  {
  }

  /** "<n> <unit>" parses to n times the unit's seconds, for every known unit. */
  lemma ParseDurationOfAmount(n: nat, unit: string)
    requires Multiplier(unit).Some?
    ensures ParseDuration(NatToString(n) + " " + unit) == Success(n * Multiplier(unit).value)
  {
    var amount := NatToString(n);
    DigitsHaveNoSpace(amount);
    assert NoSpace(unit);
    WordsOfTwo(amount, unit);
    ToIOfNatToString(n);
  }

  // ---------------------------------------------------------------------
  // The question and answers
  // ---------------------------------------------------------------------

  /** Length of a match of `/q\s+q/` at the very start of `s`, or 0 when there is none. */
  function SepLength(s: string, q: char): (n: nat)
    requires !IsSpace(q)
    ensures n == 0 || 3 <= n <= |s|
  {
    if |s| >= 3 && s[0] == q && IsSpace(s[1]) then
      var k := 1 + SpaceRun(s[1..]);
      if k < |s| && s[k] == q then k + 1 else 0
    else 0
  }

  /** `s.split(/q\s+q/)` before trailing empty fields are dropped (q taken literally). */
  function Split(s: string, q: char): (fields: seq<string>)
    requires !IsSpace(q)
    ensures |fields| >= 1
    decreases |s|
  {
    if s == [] then [[]]
    else
      var n := SepLength(s, q);
      if n > 0 then [[]] + Split(s[n..], q)
      else
        var rest := Split(s[1..], q);
        [[s[0]] + rest[0]] + rest[1..]
  }

  /** String#split drops trailing empty fields. */
  function DropTrailingEmpty(fields: seq<string>): (r: seq<string>)
    ensures |r| <= |fields| && r == fields[..|r|]
    ensures r == [] || r[|r| - 1] != []
    ensures forall i :: |r| <= i < |fields| ==> fields[i] == []
  {
    if fields == [] then []
    else if fields[|fields| - 1] == [] then DropTrailingEmpty(fields[..|fields| - 1])
    else fields
  }

  /** The chunks of the input blob, split at "<quote><spaces><quote>" with its first character as the quote. */
  function Chunks(blob: string): seq<string>
    requires blob != [] && !IsSpace(blob[0])
  {
    DropTrailingEmpty(Split(blob, blob[0]))
  }

  /** `s.gsub(q, '')` */
  function Unquote(s: string, q: char): (r: string)
    ensures q !in r
    ensures forall c :: c in r <==> c in s && c != q
  {
    if s == [] then [] else (if s[0] == q then [] else [s[0]]) + Unquote(s[1..], q)
  }

  /** The question gets a "?" unless it already ends in one. */
  function WithQuestionMark(question: string): (r: string)
    requires question != []
    ensures |r| > 0 && r[|r| - 1] == '?'
    ensures r == question || r == question + "?"
    ensures r == question <==> question[|question| - 1] == '?'
  {
    if question[|question| - 1] != '?' then question + "?" else question
  }

  datatype Parsed = Parsed(question: string, answers: seq<string>)

  /**
   * Fewer than three chunks is "This isn't a dictatorship!"; an empty
   * question makes `question[-1].chr` raise on nil.
   */
  datatype ParseError = TooFewChunks | EmptyQuestion

  /** Lines 140-150 with the stripped character a parameter. */
  function ParseBlobWith(blob: string, strip: char): (r: Result<Parsed, ParseError>)
    requires blob != [] && !IsSpace(blob[0])
    ensures r.Success? ==> |r.value.answers| >= 2 && r.value.question != []
    ensures r == Failure(TooFewChunks) <==> |Chunks(blob)| <= 2
  {
    var chunks := Chunks(blob);
    if |chunks| <= 2 then Failure(TooFewChunks)
    else
      var question := Unquote(chunks[0], strip);
      if question == [] then Failure(EmptyQuestion)
      else
        Success(Parsed(WithQuestionMark(question),
                       seq(|chunks| - 1, i requires 0 <= i < |chunks| - 1 => Unquote(chunks[i + 1], strip))))
  }

  /** As written: only double quotes are removed, whatever quote the blob uses. */
  function ParseBlobAsWritten(blob: string): Result<Parsed, ParseError>
    requires blob != [] && !IsSpace(blob[0])
  {
    ParseBlobWith(blob, '"')
  }

  /** As intended: the quote character the chunks were split at is removed. */
  function ParseBlob(blob: string): (r: Result<Parsed, ParseError>)
    requires blob != [] && !IsSpace(blob[0])
    ensures r.Success? ==> r.value.question != [] && blob[0] !in r.value.question[..|r.value.question| - 1]
    ensures r.Success? ==> forall i :: 0 <= i < |r.value.answers| ==> blob[0] !in r.value.answers[i]
  {
    var r := ParseBlobWith(blob, blob[0]);
    if r.Success? then
      var chunks := Chunks(blob);
      var question := Unquote(chunks[0], blob[0]);
      assert r.value.question[..|r.value.question| - 1] == question
        || r.value.question[..|r.value.question| - 1] == question[..|question| - 1];
      assert forall i :: 0 <= i < |r.value.answers| ==> r.value.answers[i] == Unquote(chunks[i + 1], blob[0]);
      r
    else r
  }

  lemma ParseBlobIsWith(blob: string)
    requires blob != [] && !IsSpace(blob[0])
    ensures ParseBlob(blob) == ParseBlobWith(blob, blob[0])
  {
  }

  /** A blob written the way the help text shows: each part enclosed in `q`, parts separated by a space. */
  function Quoted(question: string, answers: seq<string>, q: char): string {
    [q] + Join([question] + answers, [q, ' ', q]) + [q]
  }

  predicate Free(parts: seq<string>, q: char) {
    forall i :: 0 <= i < |parts| ==> q !in parts[i]
  }

  lemma {:induction false} SplitPrefix(p: string, rest: string, q: char)
    requires !IsSpace(q) && q !in p
    ensures Split(p + rest, q) == [p + Split(rest, q)[0]] + Split(rest, q)[1..]
    decreases |p|
  {
    if p != [] {
      var s := p + rest;
      assert s[0] == p[0] && s[0] != q;
      assert s[1..] == p[1..] + rest;
      SplitPrefix(p[1..], rest, q);
      assert [p[0]] + (p[1..] + Split(rest, q)[0]) == p + Split(rest, q)[0];
    } else {
      var fields := Split(rest, q);
      assert p + rest == rest;
      assert p + fields[0] == fields[0];
      assert fields == [fields[0]] + fields[1..];
    }
  }

  lemma SplitAtSeparator(rest: string, q: char)
    requires !IsSpace(q)
    ensures Split([q, ' ', q] + rest, q) == [[]] + Split(rest, q)
  {
    var s := [q, ' ', q] + rest;
    assert s[1..][..2] == [' ', q];
    assert SpaceRun(s[1..][1..]) == 0;
    assert SpaceRun(s[1..]) == 1;
    assert SepLength(s, q) == 3;
    assert s[3..] == rest;
  }

  lemma SplitOfQuote(q: char)
    requires !IsSpace(q)
    ensures Split([q], q) == [[q]]
  {
    var s := [q];
    assert SepLength(s, q) == 0;
    assert s[1..] == [];
    assert Split([], q) == [[]];
    assert [q] + [] == [q];
  }

  /** A part free of `q`, a separator, and the rest: the part is one field. */
  lemma SplitPartThenSeparator(head: string, tail: string, q: char)
    requires !IsSpace(q) && q !in head
    ensures Split(head + ([q, ' ', q] + tail), q) == [head] + Split(tail, q)
  {
    SplitPrefix(head, [q, ' ', q] + tail, q);
    SplitAtSeparator(tail, q);
    assert head + [] == head;
  }

  lemma {:induction false} SplitJoined(parts: seq<string>, q: char)
    requires !IsSpace(q) && parts != [] && Free(parts, q)
    ensures Split(Join(parts, [q, ' ', q]) + [q], q) == parts[..|parts| - 1] + [parts[|parts| - 1] + [q]]
    decreases |parts|
  {
    var sep := [q, ' ', q];
    var n := |parts|;
    assert q !in parts[0];
    if n == 1 {
      SplitPrefix(parts[0], [q], q);
      SplitOfQuote(q);
    } else {
      var rest := parts[1..];
      var tail := Join(rest, sep) + [q];
      assert Join(parts, sep) + [q] == parts[0] + (sep + tail);
      SplitPartThenSeparator(parts[0], tail, q);
      assert Free(rest, q) by {
        forall i | 0 <= i < |rest| ensures q !in rest[i] {
          assert rest[i] == parts[i + 1];
        }
      }
      SplitJoined(rest, q);
      assert Split(tail, q) == rest[..n - 2] + [parts[n - 1] + [q]];
      assert [parts[0]] + rest[..n - 2] == parts[..n - 1];
    }
  }

  /** An opening quote followed by a non-space is no separator: it starts the first field. */
  lemma SplitAfterOpening(body: string, q: char)
    requires !IsSpace(q) && body != [] && !IsSpace(body[0])
    ensures Split([q] + body, q) == [[q] + Split(body, q)[0]] + Split(body, q)[1..]
  {
    var s := [q] + body;
    assert SepLength(s, q) == 0;
    assert s[1..] == body;
  }

  lemma QuotedBody(question: string, answers: seq<string>, q: char)
    requires question == [] || !IsSpace(question[0])
    requires !IsSpace(q)
    ensures var body := Join([question] + answers, [q, ' ', q]) + [q];
            Quoted(question, answers, q) == [q] + body && body != [] && !IsSpace(body[0])
  {
    var parts := [question] + answers;
    var sep := [q, ' ', q];
    var body := Join(parts, sep) + [q];
    if |parts| == 1 {
      assert Join(parts, sep) == question;
    } else {
      assert Join(parts, sep) == question + sep + Join(parts[1..], sep);
    }
    if question != [] {
      assert body[0] == question[0];
    } else {
      assert body[0] == q;
    }
  }

  lemma ChunksOfQuoted(question: string, answers: seq<string>, q: char)
    requires !IsSpace(q) && Free([question] + answers, q)
    requires question == [] || !IsSpace(question[0])
    requires answers != []
    ensures Quoted(question, answers, q)[0] == q
    ensures Chunks(Quoted(question, answers, q)) ==
            [[q] + question] + answers[..|answers| - 1] + [answers[|answers| - 1] + [q]]
  {
    var parts := [question] + answers;
    var body := Join(parts, [q, ' ', q]) + [q];
    QuotedBody(question, answers, q);
    SplitAfterOpening(body, q);
    SplitJoined(parts, q);
    OpeningFields(question, answers, q);
    var fields := [[q] + question] + answers[..|answers| - 1] + [answers[|answers| - 1] + [q]];
    assert Split(Quoted(question, answers, q), q) == fields;
    KeepsLastField(fields);
  }

  /** The opening quote joins the first field: pure list algebra. */
  lemma OpeningFields(question: string, answers: seq<string>, q: char)
    requires answers != []
    ensures var parts := [question] + answers;
            var split := parts[..|parts| - 1] + [parts[|parts| - 1] + [q]];
            [[q] + split[0]] + split[1..]
            == [[q] + question] + answers[..|answers| - 1] + [answers[|answers| - 1] + [q]]
  {
    var parts := [question] + answers;
    var n := |answers|;
    var split := parts[..|parts| - 1] + [parts[|parts| - 1] + [q]];
    assert parts[..|parts| - 1] == [question] + answers[..n - 1];
    assert split[0] == question;
    assert split[1..] == answers[..n - 1] + [answers[n - 1] + [q]];
  }

  lemma KeepsLastField(fields: seq<string>)
    requires fields != [] && fields[|fields| - 1] != []
    ensures DropTrailingEmpty(fields) == fields
  {
  }

  lemma {:induction false} UnquoteAppend(a: string, b: string, q: char)
    ensures Unquote(a + b, q) == Unquote(a, q) + Unquote(b, q)
    decreases |a|
  {
    if a != [] {
      assert (a + b)[1..] == a[1..] + b;
      UnquoteAppend(a[1..], b, q);
    } else {
      assert a + b == b;
    }
  }

  lemma {:induction false} UnquoteAbsent(s: string, q: char)
    requires q !in s
    ensures Unquote(s, q) == s
    decreases |s|
  {
    if s != [] {
      UnquoteAbsent(s[1..], q);
      assert s == [s[0]] + s[1..];
    }
  }

  /** ParseBlobWith in terms of the chunks, once there are three of them and the question is not empty. */
  lemma ParseBlobWithChunks(blob: string, strip: char, chunks: seq<string>)
    requires blob != [] && !IsSpace(blob[0])
    requires Chunks(blob) == chunks && |chunks| > 2 && Unquote(chunks[0], strip) != []
    ensures var r := ParseBlobWith(blob, strip);
            && r.Success?
            && r.value.question == WithQuestionMark(Unquote(chunks[0], strip))
            && |r.value.answers| == |chunks| - 1
            && forall i :: 0 <= i < |chunks| - 1 ==> r.value.answers[i] == Unquote(chunks[i + 1], strip)
  {
  }

  /** The answers a quoted blob's chunks give once `strip` is removed from them. */
  lemma StrippedAnswers(answers: seq<string>, q: char, strip: char, chunks: seq<string>, got: seq<string>)
    requires answers != [] && Free(answers, strip)
    requires |chunks| == |answers| + 1
    requires chunks[1..] == answers[..|answers| - 1] + [answers[|answers| - 1] + [q]]
    requires |got| == |answers| && forall i :: 0 <= i < |answers| ==> got[i] == Unquote(chunks[i + 1], strip)
    ensures got == if q == strip then answers else answers[..|answers| - 1] + [answers[|answers| - 1] + [q]]
  {
    UnquoteAnswers(answers, q, strip);
    var n := |answers|;
    forall i | 0 <= i < n ensures got[i] == Unquote(chunks[1..][i], strip) {
      assert chunks[1..][i] == chunks[i + 1];
    }
  }

  /**
   * The intended reading: a blob in the form the help text shows gives back
   * its question (with "?") and its answers, whatever quote character it uses.
   */
  lemma ParseBlobOfQuoted(question: string, answers: seq<string>, q: char)
    requires !IsSpace(q) && Free([question] + answers, q)
    requires question != [] && !IsSpace(question[0])
    requires |answers| >= 2
    ensures ParseBlob(Quoted(question, answers, q)) == Success(Parsed(WithQuestionMark(question), answers))
  {
    var blob := Quoted(question, answers, q);
    QuotedChunks(question, answers, q);
    ParseBlobIsWith(blob);
    var chunks := Chunks(blob);
    ParseBlobWithChunks(blob, q, chunks);
    var r := ParseBlobWith(blob, q);
    StrippedAnswers(answers, q, q, chunks, r.value.answers);
  }

  /** The chunks of a quoted blob, and its question chunk with the quote removed. */
  lemma QuotedChunks(question: string, answers: seq<string>, q: char)
    requires !IsSpace(q) && Free([question] + answers, q)
    requires question != [] && !IsSpace(question[0])
    requires |answers| >= 2
    ensures var blob := Quoted(question, answers, q);
            var chunks := Chunks(blob);
            var n := |answers|;
            && blob[0] == q
            && |chunks| == n + 1
            && chunks[1..] == answers[..n - 1] + [answers[n - 1] + [q]]
            && Unquote(chunks[0], q) == question
            && Free(answers, q)
  {
    ChunksOfQuoted(question, answers, q);
    QuotedChunkList(question, answers, q);
    FreeParts(question, answers, q);
    UnquoteAppend([q], question, q);
    UnquoteAbsent(question, q);
  }

  lemma QuotedChunkList(question: string, answers: seq<string>, q: char)
    requires answers != []
    ensures var n := |answers|;
            var chunks := [[q] + question] + answers[..n - 1] + [answers[n - 1] + [q]];
            |chunks| == n + 1 && chunks[0] == [q] + question
            && chunks[1..] == answers[..n - 1] + [answers[n - 1] + [q]]
  {
    var n := |answers|;
    var chunks := [[q] + question] + answers[..n - 1] + [answers[n - 1] + [q]];
    assert chunks == [[q] + question] + (answers[..n - 1] + [answers[n - 1] + [q]]);
  }

  lemma FreeParts(question: string, answers: seq<string>, q: char)
    requires Free([question] + answers, q)
    ensures q !in question && Free(answers, q)
  {
    assert ([question] + answers)[0] == question;
    forall i | 0 <= i < |answers| ensures q !in answers[i] {
      assert ([question] + answers)[i + 1] == answers[i];
    }
  }

  /** Removing `strip` from the answer chunks (the last one still carries its closing `q`). */
  lemma UnquoteAnswers(answers: seq<string>, q: char, strip: char)
    requires answers != [] && Free(answers, strip)
    ensures var n := |answers|;
            var chunks := answers[..n - 1] + [answers[n - 1] + [q]];
            forall i :: 0 <= i < n ==>
              Unquote(chunks[i], strip) == if i < n - 1 || q == strip then answers[i] else answers[i] + [q]
  {
    var n := |answers|;
    var chunks := answers[..n - 1] + [answers[n - 1] + [q]];
    forall i | 0 <= i < n
      ensures Unquote(chunks[i], strip) == if i < n - 1 || q == strip then answers[i] else answers[i] + [q]
    {
      UnquoteAbsent(answers[i], strip);
      if i == n - 1 {
        assert chunks[i] == answers[i] + [q];
        UnquoteAppend(answers[i], [q], strip);
        assert Unquote([q], strip) == (if q == strip then [] else [q]) + Unquote([], strip);
      } else {
        assert chunks[i] == answers[i];
      }
    }
  }

  /**
   * As written, a blob quoted with `'` (as in the help text,
   * `poll start 'my question' 'answer1' 'answer2'`) keeps the opening quote on
   * the question and the closing quote on the last answer.
   */
  lemma ParseBlobAsWrittenKeepsQuotes(question: string, answers: seq<string>)
    requires Free([question] + answers, '\'') && Free([question] + answers, '"')
    requires question != [] && !IsSpace(question[0])
    requires |answers| >= 2
    ensures var r := ParseBlobAsWritten(Quoted(question, answers, '\''));
            && r.Success?
            && r.value.question == WithQuestionMark("'" + question)
            && r.value.answers == answers[..|answers| - 1] + [answers[|answers| - 1] + "'"]
  {
    var q := '\'';
    var blob := Quoted(question, answers, q);
    ChunksOfQuoted(question, answers, q);
    var chunks := Chunks(blob);
    FreeParts(question, answers, '"');
    assert chunks[0] == [q] + question;
    UnquoteAbsent(chunks[0], '"');
    ParseBlobWithChunks(blob, '"', chunks);
    var r := ParseBlobWith(blob, '"');
    StrippedAnswers(answers, q, '"', chunks, r.value.answers);
  }

  // ---------------------------------------------------------------------
  // Counting the votes
  // ---------------------------------------------------------------------

  predicate Descending(s: seq<Answer>) {
    forall i, j :: 0 <= i < j < |s| ==> s[i].count >= s[j].count
  }

  /** One step of the sort: `a` placed before the first answer with fewer votes. */
  function Insert(a: Answer, s: seq<Answer>): (r: seq<Answer>)
    requires Descending(s)
    ensures |r| == |s| + 1 && Descending(r)
    ensures r[0] == a || (s != [] && r[0] == s[0])
  {
    if s == [] || a.count >= s[0].count then
      assert ([a] + s)[1..] == s;
      [a] + s
    else
      var t := Insert(a, s[1..]);
      assert t[0].count <= s[0].count;
      [s[0]] + t
  }

  /** Insertion adds `a` and loses nothing: the same answers, the same total. */
  lemma InsertCounts(a: Answer, s: seq<Answer>)
    requires Descending(s)
    ensures multiset(Insert(a, s)) == multiset(s) + multiset{a}
    ensures Total(Insert(a, s)) == a.count + Total(s)
  {
    InsertPermutes(a, s);
    InsertTotal(a, s);
  }

  lemma {:induction false} InsertPermutes(a: Answer, s: seq<Answer>)
    requires Descending(s)
    ensures multiset(Insert(a, s)) == multiset(s) + multiset{a}
  {
    if s != [] && a.count < s[0].count {
      var t := Insert(a, s[1..]);
      InsertPermutes(a, s[1..]);
      assert s == [s[0]] + s[1..];
      assert Insert(a, s) == [s[0]] + t;
    }
  }

  lemma {:induction false} InsertTotal(a: Answer, s: seq<Answer>)
    requires Descending(s)
    ensures Total(Insert(a, s)) == a.count + Total(s)
  {
    var r := Insert(a, s);
    if s == [] || a.count >= s[0].count {
      assert r[1..] == s;
    } else {
      InsertTotal(a, s[1..]);
      assert r[1..] == Insert(a, s[1..]);
    }
  }

  /** `answers.sort { |a, b| b.count <=> a.count }`: most votes first. */
  function SortByCount(s: seq<Answer>): (r: seq<Answer>)
    ensures |r| == |s| && Descending(r)
    ensures multiset(r) == multiset(s)
    ensures Total(r) == Total(s)
  {
    if s == [] then []
    else
      assert s == [s[0]] + s[1..];
      var rest := SortByCount(s[1..]);
      InsertCounts(s[0], rest);
      Insert(s[0], rest)
  }

  /** The answers that got votes, as (value, count), in the given order. */
  function Tally(s: seq<Answer>): seq<(string, nat)> {
    if s == [] then [] else Entry(s[0]) + Tally(s[1..])
  }

  function Entry(a: Answer): seq<(string, nat)> {
    if a.count > 0 then [(a.value, a.count)] else []
  }

  /** `100 * (count / total)` as written: integer division happens first. */
  function PercentAsWritten(count: nat, total: nat): int
    requires total > 0
  {
    100 * (count / total)
  }

  /** As intended: the winner's share of the votes in percent, to the nearest integer (halves up). */
  function Percent(count: nat, total: nat): (pct: int)
    requires total > 0
    ensures -(total as int) <= 2 * (100 * count - pct * total) < total
    ensures count <= total ==> 0 <= pct <= 100
  {
    RoundedShare(200 * count + total, total);
    ShareAtMostAll(count, total);
    (200 * count + total) / (2 * total)
  }

  /** For n = 200 * count + total, the quotient by 2 * total misses 100 * count / total by at most half. */
  lemma RoundedShare(n: nat, total: nat)
    requires total > 0
    ensures var p := n / (2 * total);
            p >= 0 && 2 * (p * total) + n % (2 * total) == n
  {
    NatDivision(n, 2 * total);
    DoubleTimes(total, n / (2 * total));
  }

  lemma NatDivision(n: nat, d: int)
    requires d > 0
    ensures n / d >= 0 && d * (n / d) + n % d == n
  {
  }

  lemma DoubleTimes(t: int, p: int)
    ensures (2 * t) * p == 2 * (p * t)
  {
  }

  lemma ShareAtMostAll(count: nat, total: nat)
    requires total > 0
    ensures count <= total ==> (200 * count + total) / (2 * total) <= 100
  {
    if count <= total {
      QuotientAtMost(200 * count + total, 2 * total, 100);
    }
  }

  lemma QuotientAtMost(n: nat, d: nat, q: nat)
    requires d > 0 && n < (q + 1) * d
    ensures n / d <= q
  {
    var p := n / d;
    assert d * p <= n;
    assert d * p < d * (q + 1);
  }

  /** Every winner short of a unanimous vote gets 0% as written. */
  lemma PercentAsWrittenDropsShare(count: nat, total: nat)
    requires 0 <= count < total
    ensures PercentAsWritten(count, total) == 0
    ensures PercentAsWritten(2, 3) == 0 && Percent(2, 3) == 67
  {
  }

  /** `poll.outcome` as count_votes computes it. */
  function ComputeOutcome(answers: seq<Answer>): Outcome
    requires |answers| >= 2
  {
    var sorted := SortByCount(answers);
    var total := Total(sorted);
    if total == 0 then NobodyVoted
    else if sorted[0].count == sorted[1].count then NoClearWinner(Tally(sorted))
    else Winner(sorted[0].letter, sorted[0].value, sorted[0].count, PercentAsWritten(sorted[0].count, total))
  }

  /** Answer `k` has strictly more votes than every other answer. */
  predicate UniqueTop(answers: seq<Answer>, k: nat) {
    k < |answers| && forall j :: 0 <= j < |answers| && j != k ==> answers[j].count < answers[k].count
  }

  lemma {:induction false} TotalZero(s: seq<Answer>)
    ensures Total(s) == 0 <==> forall k :: 0 <= k < |s| ==> s[k].count == 0
  {
    if s != [] {
      TotalZero(s[1..]);
      assert forall k :: 1 <= k < |s| ==> s[k] == s[1..][k - 1];
    }
  }

  lemma {:induction false} OnlyOnce(s: seq<Answer>, k: nat)
    requires k < |s| && forall j :: 0 <= j < |s| && j != k ==> s[j] != s[k]
    ensures multiset(s)[s[k]] == 1
    decreases |s|
  {
    assert s == [s[0]] + s[1..];
    if k == 0 {
      assert s[0] !in s[1..];
    } else {
      forall j | 0 <= j < |s[1..]| && j != k - 1 ensures s[1..][j] != s[1..][k - 1] {
        assert s[1..][j] == s[j + 1];
      }
      OnlyOnce(s[1..], k - 1);
    }
  }

  /** Nobody voted exactly when every count is 0. */
  lemma NobodyVotedIff(answers: seq<Answer>)
    requires |answers| >= 2
    ensures ComputeOutcome(answers) == NobodyVoted <==> forall k :: 0 <= k < |answers| ==> answers[k].count == 0
  {
    TotalZero(answers);
  }

  /** An answer with strictly the most votes wins, with its votes and its share. */
  lemma WinnerOfUniqueTop(answers: seq<Answer>, k: nat)
    requires |answers| >= 2 && UniqueTop(answers, k)
    ensures Total(answers) > 0
    ensures ComputeOutcome(answers) ==
            Winner(answers[k].letter, answers[k].value, answers[k].count,
                   PercentAsWritten(answers[k].count, Total(answers)))
  {
    TopSortsFirst(answers, k);
    RunnerUpBelowTop(answers, k);
    TotalZero(answers);
    var other := if k == 0 then 1 else 0;
    assert answers[other].count < answers[k].count;
  }

  lemma {:induction false} CountAtMostTotal(s: seq<Answer>, k: nat)
    requires k < |s|
    ensures s[k].count <= Total(s)
  {
    if k > 0 {
      CountAtMostTotal(s[1..], k - 1);
    }
  }

  /** As written, a winner's reported share is 100 when it took every vote and 0 otherwise. */
  lemma WinnerShareAsWritten(answers: seq<Answer>)
    requires |answers| >= 2
    requires ComputeOutcome(answers).Winner?
    ensures var w := ComputeOutcome(answers);
            w.percent == (if w.count == Total(answers) then 100 else 0)
  {
    var sorted := SortByCount(answers);
    var total := Total(sorted);
    assert total == Total(answers) && total > 0;
    assert ComputeOutcome(answers) ==
           Winner(sorted[0].letter, sorted[0].value, sorted[0].count, PercentAsWritten(sorted[0].count, total));
    CountAtMostTotal(sorted, 0);
    PercentAsWrittenAllOrNothing(sorted[0].count, total);
  }

  lemma PercentAsWrittenAllOrNothing(count: nat, total: nat)
    requires 0 < total && count <= total
    ensures PercentAsWritten(count, total) == if count == total then 100 else 0
  {
    if count < total {
      PercentAsWrittenDropsShare(count, total);
    } else {
      assert count / total == 1;
    }
  }

  /** The unique top answer is the first after sorting. */
  lemma TopSortsFirst(answers: seq<Answer>, k: nat)
    requires |answers| >= 2 && UniqueTop(answers, k)
    ensures SortByCount(answers)[0] == answers[k]
  {
    var sorted := SortByCount(answers);
    assert answers[k] in multiset(sorted);
    var i :| 0 <= i < |sorted| && sorted[i] == answers[k];
    assert sorted[0].count >= answers[k].count;
    assert sorted[0] in multiset(answers);
    var m :| 0 <= m < |answers| && answers[m] == sorted[0];
    assert m == k;
  }

  /** The second after sorting has fewer votes than the unique top answer. */
  lemma RunnerUpBelowTop(answers: seq<Answer>, k: nat)
    requires |answers| >= 2 && UniqueTop(answers, k)
    ensures SortByCount(answers)[1].count < answers[k].count
  {
    var sorted := SortByCount(answers);
    TopSortsFirst(answers, k);
    OnlyOnce(answers, k);
    FirstTwoDistinct(sorted, answers[k]);
    assert sorted[1] in multiset(answers);
    var m :| 0 <= m < |answers| && answers[m] == sorted[1];
    assert m != k;
  }

  lemma FirstTwoDistinct(s: seq<Answer>, x: Answer)
    requires |s| >= 2 && s[0] == x && multiset(s)[x] == 1
    ensures s[1] != x
  {
    assert s == [s[0], s[1]] + s[2..];
  }

  /** Conversely, a winner is an answer with strictly the most votes. */
  lemma UniqueTopOfWinner(answers: seq<Answer>)
    requires |answers| >= 2 && Labelled(answers)
    requires ComputeOutcome(answers).Winner?
    ensures exists k: nat :: UniqueTop(answers, k) && ComputeOutcome(answers).letter == answers[k].letter
  {
    var sorted := SortByCount(answers);
    assert sorted[0].count > sorted[1].count;
    assert sorted[0] in multiset(answers);
    var k :| 0 <= k < |answers| && answers[k] == sorted[0];
    forall j | 0 <= j < |answers| && j != k
      ensures answers[j].count < answers[k].count
    {
      BelowSortedHead(answers, sorted, k, j);
    }
    assert UniqueTop(answers, k);
  }

  /** With the first two sorted counts apart, every other answer has fewer votes than the head. */
  lemma BelowSortedHead(answers: seq<Answer>, sorted: seq<Answer>, k: nat, j: nat)
    requires Labelled(answers) && |sorted| >= 2 && Descending(sorted)
    requires multiset(sorted) == multiset(answers)
    requires k < |answers| && j < |answers| && j != k
    requires answers[k] == sorted[0] && sorted[0].count > sorted[1].count
    ensures answers[j].count < answers[k].count
  {
    assert answers[j] in multiset(sorted);
    var i :| 0 <= i < |sorted| && sorted[i] == answers[j];
    if i == 0 {
      LabelInjective(j, k);
    }
    assert sorted[i].count <= sorted[1].count;
  }

  /** There is no clear winner exactly when somebody voted and no answer leads alone. */
  lemma NoClearWinnerIff(answers: seq<Answer>)
    requires |answers| >= 2 && Labelled(answers)
    ensures ComputeOutcome(answers).NoClearWinner? <==>
            (Total(answers) > 0 && forall k :: 0 <= k < |answers| ==> !UniqueTop(answers, k))
  {
    if ComputeOutcome(answers).NoClearWinner? {
      forall k | 0 <= k < |answers| ensures !UniqueTop(answers, k) {
        if UniqueTop(answers, k) {
          WinnerOfUniqueTop(answers, k);
        }
      }
    } else if Total(answers) > 0 && ComputeOutcome(answers).Winner? {
      UniqueTopOfWinner(answers);
    }
  }

  lemma {:induction false} TallyInsert(a: Answer, s: seq<Answer>)
    requires Descending(s)
    ensures multiset(Tally(Insert(a, s))) == multiset(Entry(a)) + multiset(Tally(s))
    decreases |s|
  {
    var r := Insert(a, s);
    if s == [] || a.count >= s[0].count {
      assert r == [a] + s;
      assert r[1..] == s;
      assert Tally(r) == Entry(a) + Tally(s);
    } else {
      var r' := Insert(a, s[1..]);
      assert r == [s[0]] + r';
      assert r[1..] == r';
      assert Tally(r) == Entry(s[0]) + Tally(r');
      TallyInsert(a, s[1..]);
      assert Tally(s) == Entry(s[0]) + Tally(s[1..]);
    }
  }

  lemma {:induction false} TallyBounded(s: seq<Answer>, m: nat)
    requires forall k :: 0 <= k < |s| ==> s[k].count <= m
    ensures forall i :: 0 <= i < |Tally(s)| ==> 0 < Tally(s)[i].1 <= m
    decreases |s|
  {
    if s != [] {
      assert forall k :: 0 <= k < |s[1..]| ==> s[1..][k] == s[k + 1];
      TallyBounded(s[1..], m);
    }
  }

  lemma {:induction false} TallyDescending(s: seq<Answer>)
    requires Descending(s)
    ensures forall i, j :: 0 <= i < j < |Tally(s)| ==> Tally(s)[i].1 >= Tally(s)[j].1
    decreases |s|
  {
    if s != [] {
      assert forall k :: 0 <= k < |s[1..]| ==> s[1..][k] == s[k + 1];
      TallyDescending(s[1..]);
      TallyBounded(s[1..], s[0].count);
    }
  }

  lemma {:induction false} TallySorted(s: seq<Answer>)
    ensures multiset(Tally(SortByCount(s))) == multiset(Tally(s))
    decreases |s|
  {
    if s != [] {
      var rest := SortByCount(s[1..]);
      assert SortByCount(s) == Insert(s[0], rest);
      TallySorted(s[1..]);
      TallyInsert(s[0], rest);
      assert Tally(s) == Entry(s[0]) + Tally(s[1..]);
    }
  }

  /** A tie lists every answer that got votes, with its count, most votes first. */
  lemma NoClearWinnerTally(answers: seq<Answer>)
    requires |answers| >= 2 && ComputeOutcome(answers).NoClearWinner?
    ensures var t := ComputeOutcome(answers).tally;
            && multiset(t) == multiset(Tally(answers))
            && forall i, j :: 0 <= i < j < |t| ==> t[i].1 >= t[j].1
  {
    var sorted := SortByCount(answers);
    assert ComputeOutcome(answers).tally == Tally(sorted);
    TallySorted(answers);
    TallyDescending(sorted);
  }

  // ---------------------------------------------------------------------
  // The registry
  // ---------------------------------------------------------------------

  /** `@registry[:running]`, `@registry[:archives]` and `@registry[:last_poll_id]`. */
  datatype Registry = Registry(running: map<int, PollData>, archives: map<int, PollData>, lastPollId: int)

  /** The ids of the running polls `victim` started. */
  function AuthorsPolls(running: map<int, PollData>, victim: string): set<int> {
    set id | id in running && running[id].author == victim
  }

  /** authors_running_count: how many running polls `victim` started. */
  function AuthorsRunningCount(running: map<int, PollData>, victim: string): nat {
    |AuthorsPolls(running, victim)|
  }

  predicate RunningPoll(p: PollData, id: int) {
    p.id == Some(id) && p.running && WellFormed(p) && |p.answers| >= 2
  }

  predicate ArchivedPoll(p: PollData, id: int) {
    p.id == Some(id) && !p.running && WellFormed(p) && p.outcome.Some?
  }

  /**
   * Ids are 1 .. last_poll_id, each in at most one of the two maps;
   * running polls are running with consistent tallies and at least two
   * answers; archived ones are stopped and carry their outcome.
   */
  predicate ValidRegistry(r: Registry) {
    && r.lastPollId >= 0
    && (forall id :: id in r.running ==> 0 < id <= r.lastPollId && RunningPoll(r.running[id], id))
    && (forall id :: id in r.archives ==>
          0 < id <= r.lastPollId && id !in r.running && ArchivedPoll(r.archives[id], id))
  }

  datatype StartReply =
    | AtLimit(max: int)
    | Dictatorship
    | NoQuestion
    | NoUnit
    | BadUnit(unit: string)
    | Opened(id: int, question: string, duration: int)

  /** The poll `start` creates, once its question, answers and duration are known. */
  function OpenedPoll(author: string, channel: string, parsed: Parsed, duration: int,
                      id: int, now: int): PollData
  {
    Started(NewPoll(author, channel, parsed.question, parsed.answers, duration).(id := Some(id)), now)
  }

  /** The registry once a poll is filed under the next id, which becomes last_poll_id. */
  function Open(r: Registry, p: PollData): Registry {
    Registry(r.running[r.lastPollId + 1 := p], r.archives, r.lastPollId + 1)
  }

  /** PollPlugin#start: the checks in source order, then a started poll under a new id. */
  function StartSpec(r: Registry, author: string, channel: string, blob: string,
                     durationText: string, maxConcurrent: int, defaultDuration: string,
                     now: int): (StartReply, Registry)
    requires blob != [] && !IsSpace(blob[0])
  {
    if AuthorsRunningCount(r.running, author) == maxConcurrent then (AtLimit(maxConcurrent), r)
    else
      match ParseBlobAsWritten(blob)
      case Failure(TooFewChunks) => (Dictatorship, r)
      case Failure(EmptyQuestion) => (NoQuestion, r)
      case Success(parsed) =>
        match ParseDuration(TargetDuration(durationText, defaultDuration))
        case Failure(MissingUnit) => (NoUnit, r)
        case Failure(UnknownUnit(u)) => (BadUnit(u), r)
        case Success(d) =>
          var id := r.lastPollId + 1;
          (Opened(id, parsed.question, d), Open(r, OpenedPoll(author, channel, parsed, d, id, now)))
  }

  /** Every rejection leaves the registry as it was; an opening files the parsed poll. */
  lemma StartShape(r: Registry, author: string, channel: string, blob: string,
                   durationText: string, maxConcurrent: int, defaultDuration: string, now: int)
    requires blob != [] && !IsSpace(blob[0])
    ensures var (reply, r') := StartSpec(r, author, channel, blob, durationText, maxConcurrent, defaultDuration, now);
            && (!reply.Opened? ==> r' == r)
            && (reply.Opened? ==>
                  && AuthorsRunningCount(r.running, author) != maxConcurrent
                  && ParseBlobAsWritten(blob).Success?
                  && ParseDuration(TargetDuration(durationText, defaultDuration)).Success?
                  && reply.id == r.lastPollId + 1
                  && reply.question == ParseBlobAsWritten(blob).value.question
                  && reply.duration == ParseDuration(TargetDuration(durationText, defaultDuration)).value
                  && r' == Open(r, OpenedPoll(author, channel, ParseBlobAsWritten(blob).value, reply.duration, reply.id, now)))
  {
  }

  lemma OpenedPollRuns(author: string, channel: string, parsed: Parsed, duration: int, id: int, now: int)
    requires |parsed.answers| >= 2
    ensures var p := OpenedPoll(author, channel, parsed, duration, id, now);
            && RunningPoll(p, id)
            && p.author == author && p.channel == channel && p.question == parsed.question
            && p.voters == map[] && p.started == Some(now) && p.endsAt == Some(now + duration)
  {
    var created := NewPoll(author, channel, parsed.question, parsed.answers, duration);
    NewPollIsFresh(author, channel, parsed.question, parsed.answers, duration);
    StartStopKeepTally(created.(id := Some(id)), now, now);
  }

  lemma OpenFrame(r: Registry, p: PollData)
    requires ValidRegistry(r)
    ensures r.lastPollId + 1 !in r.running && r.lastPollId + 1 !in r.archives
    ensures Open(r, p).running.Keys == r.running.Keys + {r.lastPollId + 1}
    ensures forall id :: id in r.running ==> Open(r, p).running[id] == r.running[id]
  {
  }

  lemma OpenKeepsValid(r: Registry, p: PollData)
    requires ValidRegistry(r) && RunningPoll(p, r.lastPollId + 1)
    ensures ValidRegistry(Open(r, p))
  {
    var id := r.lastPollId + 1;
    var r' := Open(r, p);
    forall i | i in r'.running ensures 0 < i <= r'.lastPollId && RunningPoll(r'.running[i], i) {
      if i != id { assert r'.running[i] == r.running[i]; }
    }
    forall i | i in r'.archives
      ensures 0 < i <= r'.lastPollId && i !in r'.running && ArchivedPoll(r'.archives[i], i)
    {
      assert r'.archives[i] == r.archives[i];
    }
  }

  /**
   * A rejected start changes nothing. An accepted one files a running poll
   * by `author` under id last_poll_id + 1, which was free, raises
   * last_poll_id to it, ends at now + duration and keeps the registry valid.
   */
  lemma StartOpensFreshPoll(r: Registry, author: string, channel: string, blob: string,
                            durationText: string, maxConcurrent: int, defaultDuration: string,
                            now: int)
    requires blob != [] && !IsSpace(blob[0])
    requires ValidRegistry(r)
    ensures var (reply, r') := StartSpec(r, author, channel, blob, durationText, maxConcurrent, defaultDuration, now);
            && ValidRegistry(r')
            && (!reply.Opened? ==> r' == r)
            && (reply.Opened? ==> FreshlyOpened(r, r', reply.id, author, reply.question, reply.duration, now))
  {
    StartShape(r, author, channel, blob, durationText, maxConcurrent, defaultDuration, now);
    var (reply, r') := StartSpec(r, author, channel, blob, durationText, maxConcurrent, defaultDuration, now);
    if reply.Opened? {
      OpenFreshPoll(r, author, channel, ParseBlobAsWritten(blob).value, reply.duration, now);
    }
  }

  /**
   * `r'` is `r` with one more running poll, filed under the next id: started
   * by `author` with that question, no votes yet, closing `duration` seconds
   * after `now`; every other poll is where it was.
   */
  predicate FreshlyOpened(r: Registry, r': Registry, id: int, author: string, question: string,
                          duration: int, now: int)
  {
    && id == r.lastPollId + 1 && id !in r.running && id !in r.archives
    && r'.lastPollId == id && r'.archives == r.archives
    && id in r'.running
    && r'.running.Keys == r.running.Keys + {id}
    && (forall i :: i in r.running ==> r'.running[i] == r.running[i])
    && r'.running[id].author == author
    && r'.running[id].question == question
    && r'.running[id].voters == map[]
    && r'.running[id].endsAt == Some(now + duration)
  }

  /** Filing the started poll under the next id. */
  lemma OpenFreshPoll(r: Registry, author: string, channel: string, parsed: Parsed, duration: int, now: int)
    requires ValidRegistry(r) && |parsed.answers| >= 2
    ensures var id := r.lastPollId + 1;
            var r' := Open(r, OpenedPoll(author, channel, parsed, duration, id, now));
            && ValidRegistry(r')
            && FreshlyOpened(r, r', id, author, parsed.question, duration, now)
  {
    var id := r.lastPollId + 1;
    var p := OpenedPoll(author, channel, parsed, duration, id, now);
    OpenedPollRuns(author, channel, parsed, duration, id, now);
    OpenFrame(r, p);
    OpenKeepsValid(r, p);
    assert Open(r, p).running[id] == p;
  }

  lemma OpenCounts(r: Registry, p: PollData, other: string)
    requires r.lastPollId + 1 !in r.running
    ensures AuthorsRunningCount(Open(r, p).running, other) ==
            AuthorsRunningCount(r.running, other) + (if p.author == other then 1 else 0)
  {
    var id := r.lastPollId + 1;
    var before := AuthorsPolls(r.running, other);
    var after := AuthorsPolls(Open(r, p).running, other);
    AddedPolls(r.running, id, p, other);
    if p.author == other {
      assert id !in before;
    }
  }

  lemma AddedPolls(running: map<int, PollData>, id: int, p: PollData, victim: string)
    requires id !in running
    ensures AuthorsPolls(running[id := p], victim) ==
            AuthorsPolls(running, victim) + (if p.author == victim then {id} else {})
  {
    var before := AuthorsPolls(running, victim);
    var after := AuthorsPolls(running[id := p], victim);
    var added: set<int> := if p.author == victim then {id} else {};
    forall i ensures i in after <==> i in before + added {
      if i != id {
        assert i in running[id := p] <==> i in running;
      }
    }
  }

  /** Starting a poll counts one more running poll for its author and none for anybody else. */
  lemma StartCountsAuthor(r: Registry, author: string, channel: string, blob: string,
                          durationText: string, maxConcurrent: int, defaultDuration: string,
                          now: int, other: string)
    requires blob != [] && !IsSpace(blob[0])
    requires ValidRegistry(r)
    ensures var (reply, r') := StartSpec(r, author, channel, blob, durationText, maxConcurrent, defaultDuration, now);
            AuthorsRunningCount(r'.running, other) ==
              AuthorsRunningCount(r.running, other) + (if reply.Opened? && other == author then 1 else 0)
  {
    StartShape(r, author, channel, blob, durationText, maxConcurrent, defaultDuration, now);
    var (reply, r') := StartSpec(r, author, channel, blob, durationText, maxConcurrent, defaultDuration, now);
    if reply.Opened? {
      var parsed := ParseBlobAsWritten(blob).value;
      var p := OpenedPoll(author, channel, parsed, reply.duration, reply.id, now);
      OpenedPollRuns(author, channel, parsed, reply.duration, reply.id, now);
      OpenKeepsValid(r, p);
      OpenCounts(r, p, other);
    }
  }

  /**
   * With the limit check at `==`, an author at or below the limit stays at
   * or below it whatever `start` does.
   */
  lemma StartKeepsAuthorLimit(r: Registry, author: string, channel: string, blob: string,
                              durationText: string, maxConcurrent: int, defaultDuration: string,
                              now: int)
    requires blob != [] && !IsSpace(blob[0])
    requires ValidRegistry(r) && AuthorsRunningCount(r.running, author) <= maxConcurrent
    ensures AuthorsRunningCount(StartSpec(r, author, channel, blob, durationText, maxConcurrent,
                                          defaultDuration, now).1.running, author) <= maxConcurrent
  {
    StartCountsAuthor(r, author, channel, blob, durationText, maxConcurrent, defaultDuration, now, author);
  }

  /** The closed poll count_votes archives: stopped, with its outcome set. */
  function Closed(p: PollData): PollData
    requires |p.answers| >= 2
  {
    Stopped(p).(outcome := Some(ComputeOutcome(p.answers)))
  }

  /** PollPlugin#count_votes: a vanished id does nothing; otherwise the poll moves to the archives. */
  function CountVotesSpec(r: Registry, pollId: int): Registry
    requires pollId in r.running ==> |r.running[pollId].answers| >= 2
  {
    if pollId !in r.running then r
    else Registry(r.running - {pollId}, r.archives[pollId := Closed(r.running[pollId])], r.lastPollId)
  }

  /**
   * count_votes moves the poll, closed and with its votes intact, from
   * `:running` to `:archives` under the same id, touches no other poll and
   * keeps the registry valid.
   */
  lemma CountVotesArchives(r: Registry, pollId: int)
    requires ValidRegistry(r)
    ensures var r' := CountVotesSpec(r, pollId);
            && ValidRegistry(r')
            && (pollId !in r.running ==> r' == r)
            && (pollId in r.running ==>
                  && pollId !in r'.running && pollId in r'.archives
                  && r'.running.Keys == r.running.Keys - {pollId}
                  && r'.archives.Keys == r.archives.Keys + {pollId}
                  && !r'.archives[pollId].running
                  && r'.archives[pollId].answers == r.running[pollId].answers
                  && r'.archives[pollId].voters == r.running[pollId].voters
                  && r'.archives[pollId].outcome == Some(ComputeOutcome(r.running[pollId].answers))
                  && (forall id :: id in r'.running ==> r'.running[id] == r.running[id])
                  && r'.lastPollId == r.lastPollId)
  {
    if pollId in r.running {
      var p := r.running[pollId];
      ClosedIsArchived(p, pollId);
      ArchiveKeepsValid(r, pollId, Closed(p));
      ArchiveFrame(r, pollId, Closed(p));
    }
  }

  lemma ClosedIsArchived(p: PollData, id: int)
    requires RunningPoll(p, id)
    ensures ArchivedPoll(Closed(p), id)
    ensures Closed(p).answers == p.answers && Closed(p).voters == p.voters
    ensures Closed(p).outcome == Some(ComputeOutcome(p.answers))
  {
    StartStopKeepTally(p, 0, 0);
  }

  lemma ArchiveFrame(r: Registry, pollId: int, p: PollData)
    requires pollId in r.running
    ensures var r' := Registry(r.running - {pollId}, r.archives[pollId := p], r.lastPollId);
            && r'.running.Keys == r.running.Keys - {pollId}
            && r'.archives.Keys == r.archives.Keys + {pollId}
            && (forall id :: id in r'.running ==> r'.running[id] == r.running[id])
  {
  }

  lemma ArchiveKeepsValid(r: Registry, pollId: int, p: PollData)
    requires ValidRegistry(r) && pollId in r.running && ArchivedPoll(p, pollId)
    ensures ValidRegistry(Registry(r.running - {pollId}, r.archives[pollId := p], r.lastPollId))
  {
    var r' := Registry(r.running - {pollId}, r.archives[pollId := p], r.lastPollId);
    forall i | i in r'.running ensures 0 < i <= r'.lastPollId && RunningPoll(r'.running[i], i) {
      assert r'.running[i] == r.running[i];
    }
    forall i | i in r'.archives
      ensures 0 < i <= r'.lastPollId && i !in r'.running && ArchivedPoll(r'.archives[i], i)
    {
      if i != pollId { assert r'.archives[i] == r.archives[i]; }
    }
  }

  lemma ReplaceKeepsValid(r: Registry, pollId: int, p: PollData)
    requires ValidRegistry(r) && pollId in r.running && RunningPoll(p, pollId)
    ensures ValidRegistry(r.(running := r.running[pollId := p]))
  {
    var r' := r.(running := r.running[pollId := p]);
    forall i | i in r'.running ensures 0 < i <= r'.lastPollId && RunningPoll(r'.running[i], i) {
      if i != pollId { assert r'.running[i] == r.running[i]; }
    }
  }

  datatype VoteAnswer = NotRunning(id: int) | Answered(reply: VoteReply)

  /** PollPlugin#record_vote: the id is read with to_i; only running polls take votes. */
  function RecordVoteSpec(r: Registry, voter: string, idText: string, choice: string): (VoteAnswer, Registry) {
    var id := ToI(idText);
    if id !in r.running then (NotRunning(id), r)
    else
      var (reply, p) := Vote(r.running[id], voter, choice);
      (Answered(reply), r.(running := r.running[id := p]))
  }

  /**
   * A vote changes at most the one running poll it names, exactly as
   * Poll#record_vote does, and keeps the registry valid.
   */
  lemma RecordVoteKeepsRegistry(r: Registry, voter: string, idText: string, choice: string)
    requires ValidRegistry(r)
    ensures var (answer, r') := RecordVoteSpec(r, voter, idText, choice);
            && ValidRegistry(r')
            && r'.archives == r.archives && r'.lastPollId == r.lastPollId
            && r'.running.Keys == r.running.Keys
            && (ToI(idText) !in r.running ==> answer == NotRunning(ToI(idText)) && r' == r)
            && (ToI(idText) in r.running ==>
                  (answer.reply, r'.running[ToI(idText)]) == Vote(r.running[ToI(idText)], voter, choice))
            && (forall id :: id in r.running && id != ToI(idText) ==> r'.running[id] == r.running[id])
  {
    var id := ToI(idText);
    if id in r.running {
      var p := Vote(r.running[id], voter, choice).1;
      VoteKeepsRunning(r.running[id], id, voter, choice);
      ReplaceKeepsValid(r, id, p);
    }
  }

  lemma VoteKeepsRunning(p: PollData, id: int, voter: string, choice: string)
    requires RunningPoll(p, id)
    ensures RunningPoll(Vote(p, voter, choice).1, id)
  {
    VotePreservesTally(p, voter, choice);
    var q := Vote(p, voter, choice).1;
    assert q.id == p.id && q.running == p.running && |q.answers| == |p.answers|;
  }

  // ---------------------------------------------------------------------
  // The plugin object
  // ---------------------------------------------------------------------

  class PollPlugin {
    var running: map<int, PollData>
    var archives: map<int, PollData>
    var lastPollId: int

    function Reg(): Registry
      reads this
    {
      Registry(running, archives, lastPollId)
    }

    /** PollPlugin#initialize: init_reg_entry keeps each stored entry and defaults a missing one. */
    constructor(storedRunning: Option<map<int, PollData>>, storedArchives: Option<map<int, PollData>>,
                storedLast: Option<int>)
      ensures Reg() == Registry(storedRunning.GetOr(map[]), storedArchives.GetOr(map[]), storedLast.GetOr(0))
    {
      running := storedRunning.GetOr(map[]);
      archives := storedArchives.GetOr(map[]);
      lastPollId := storedLast.GetOr(0);
    }

    /** PollPlugin#start, with the clock reading and the two config values passed in. */
    method Start(author: string, channel: string, blob: string, durationText: string,
                 maxConcurrent: int, defaultDuration: string, now: int) returns (reply: StartReply)
      requires blob != [] && !IsSpace(blob[0])
      modifies this
      ensures (reply, Reg()) == StartSpec(old(Reg()), author, channel, blob, durationText,
                                          maxConcurrent, defaultDuration, now)
    {
      if AuthorsRunningCount(running, author) == maxConcurrent {
        return AtLimit(maxConcurrent);
      }
      var parsed := ParseBlobAsWritten(blob);
      if parsed.Failure? {
        return if parsed.error == TooFewChunks then Dictatorship else NoQuestion;
      }
      var duration := ParseDuration(TargetDuration(durationText, defaultDuration));
      if duration.Failure? {
        return if duration.error == MissingUnit then NoUnit else BadUnit(duration.error.unit);
      }
      var id := lastPollId + 1;
      ghost var filed := OpenedPoll(author, channel, parsed.value, duration.value, id, now);
      var poll := new Poll(author, channel, parsed.value.question, parsed.value.answers, duration.value);
      poll.id := Some(id);
      poll.Start(now);
      assert poll.Data() == filed;
      ghost var r0 := Reg();
      running := running[id := poll.Data()];
      lastPollId := id;
      assert Reg() == Open(r0, filed);
      reply := Opened(id, parsed.value.question, duration.value);
    }

    /** PollPlugin#count_votes, run when the poll's timer fires. */
    method CountVotes(pollId: int)
      requires pollId in running ==> |running[pollId].answers| >= 2
      modifies this
      ensures Reg() == CountVotesSpec(old(Reg()), pollId)
    {
      if pollId !in running {
        return;
      }
      var poll := new Poll.Load(running[pollId]);
      poll.Stop();
      poll.outcome := Some(ComputeOutcome(poll.answers));
      archives := archives[pollId := poll.Data()];
      running := running - {pollId};
    }

    /** PollPlugin#record_vote */
    method RecordVote(voter: string, idText: string, choice: string) returns (answer: VoteAnswer)
      modifies this
      ensures (answer, Reg()) == RecordVoteSpec(old(Reg()), voter, idText, choice)
    {
      var id := ToI(idText);
      if id !in running {
        return NotRunning(id);
      }
      var poll := new Poll.Load(running[id]);
      var reply := poll.RecordVote(voter, choice);
      running := running[id := poll.Data()];
      return Answered(reply);
    }
  }
}
