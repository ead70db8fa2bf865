/**
 * The pure helpers of data/rbot/plugins/youtube.rb: the ISO 8601 duration
 * subset `PT#H#M#S`, the thousands separator of comma_numbers, the video id
 * test of `info` and the whitespace collapse of video descriptions.
 */
module YouTube {
  import opened Wrappers
  import opened Text

  // ---------------------------------------------------------------------
  // parse_iso8601_duration_hack
  // ---------------------------------------------------------------------

  predicate PTAt(s: string, i: int) {
    0 <= i && i + 1 < |s| && s[i] == 'P' && s[i + 1] == 'T'
  }

  /** Where the leftmost match of the pattern starts: the first "PT". */
  function FindPT(s: string): (r: Option<nat>)
    ensures r.Some? ==> PTAt(s, r.value) && forall j :: 0 <= j < r.value ==> !PTAt(s, j)
    ensures r.None? ==> forall j :: 0 <= j < |s| ==> !PTAt(s, j)
  {
    if |s| < 2 then None
    else if s[0] == 'P' && s[1] == 'T' then Some(0)
    else
      match FindPT(s[1..])
      case None =>
        assert forall j :: 1 <= j < |s| ==> (PTAt(s, j) <==> PTAt(s[1..], j - 1));
        None
      case Some(k) =>
        assert forall j :: 1 <= j < |s| ==> (PTAt(s, j) <==> PTAt(s[1..], j - 1));
        Some(k + 1)
  }

  /** Number of digits at the start of `s`. */
  function DigitRun(s: string): (n: nat)
    ensures n <= |s| && AllDigits(s[..n])
    ensures n < |s| ==> !IsDigit(s[n])
  {
    if s != [] && IsDigit(s[0]) then
      var n := 1 + DigitRun(s[1..]);
      assert s[..n] == [s[0]] + s[1..][..n - 1];
      n
    else 0
  }

  /**
   * The optional group `(?:(\d+)U)?` at the start of `s`: the captured value
   * (nil.to_i is 0 when the group does not take part) and the characters used.
   */
  function Component(s: string, unit: char): (r: (nat, nat))
    ensures r.1 <= |s|
  {
    var n := DigitRun(s);
    if 0 < n < |s| && s[n] == unit then (DecimalValue(s[..n]), n + 1) else (0, 0)
  }

  /**
   * parse_iso8601_duration_hack: nil when the text has no "PT"; otherwise,
   * from the first "PT", optional hours, minutes and seconds in that order,
   * each missing part counting 0.
   */
  function ParseIsoDuration(s: string): (r: Option<nat>)
    ensures r.None? <==> forall j :: 0 <= j < |s| ==> !PTAt(s, j)
  {
    match FindPT(s)
    case None => None
    case Some(i) => Some(DurationAfterPT(s[i + 2..]))
  }

  /** The seconds the three optional groups after "PT" add up to. */
  function DurationAfterPT(rest: string): nat {
    var (hours, a) := Component(rest, 'H');
    var (minutes, b) := Component(rest[a..], 'M');
    var (seconds, c) := Component(rest[a + b..], 'S');
    seconds + minutes * 60 + hours * 60 * 60
  }

  lemma ParseIsoOfPT(rest: string)
    ensures ParseIsoDuration("PT" + rest) == Some(DurationAfterPT(rest))
  {
    assert PTAt("PT" + rest, 0);
    assert ("PT" + rest)[2..] == rest;
  }

  function Part(n: Option<nat>, unit: char): string {
    match n
    case None => []
    case Some(v) => NatToString(v) + [unit]
  }

  /** The duration text YouTube sends for hours, minutes and seconds, each part optional. */
  function IsoText(hours: Option<nat>, minutes: Option<nat>, seconds: Option<nat>): string {
    "PT" + (Part(hours, 'H') + (Part(minutes, 'M') + Part(seconds, 'S')))
  }

  lemma {:induction false} DigitRunOf(ds: string, rest: string)
    requires AllDigits(ds)
    requires rest == [] || !IsDigit(rest[0])
    ensures DigitRun(ds + rest) == |ds|
    decreases |ds|
  {
    if ds != [] {
      assert (ds + rest)[1..] == ds[1..] + rest;
      DigitRunOf(ds[1..], rest);
    } else {
      assert ds + rest == rest;
    }
  }

  /** The group for `unit` takes the whole part written for `unit`. */
  lemma ComponentOfPart(n: Option<nat>, unit: char, rest: string)
    requires !IsDigit(unit)
    requires n.None? ==> rest == [] || !IsDigit(rest[0])
    ensures Component(Part(n, unit) + rest, unit) == (n.GetOr(0), |Part(n, unit)|)
  {
    if n.Some? {
      var ds := NatToString(n.value);
      assert Part(n, unit) + rest == ds + ([unit] + rest);
      DigitRunOf(ds, [unit] + rest);
      assert (ds + ([unit] + rest))[..|ds|] == ds;
      DecimalOfNatToString(n.value);
    } else {
      assert Part(n, unit) + rest == rest;
      if rest != [] {
        DigitRunOf([], rest);
      }
    }
  }

  /** The group for `unit` takes nothing from a part written for another unit. */
  lemma ComponentSkipsPart(n: nat, other: char, unit: char, rest: string)
    requires !IsDigit(other) && other != unit
    ensures Component(Part(Some(n), other) + rest, unit) == (0, 0)
  {
    var ds := NatToString(n);
    assert Part(Some(n), other) + rest == ds + ([other] + rest);
    DigitRunOf(ds, [other] + rest);
  }

  /** The group for `unit` takes nothing from the parts that follow it. */
  lemma ComponentSkipsLater(minutes: Option<nat>, seconds: Option<nat>, unit: char)
    requires unit != 'M' && unit != 'S'
    ensures minutes.None? ==> Component(Part(seconds, 'S'), unit) == (0, 0)
    ensures Component(Part(minutes, 'M') + Part(seconds, 'S'), unit) == (0, 0)
  {
    if minutes.Some? {
      ComponentSkipsPart(minutes.value, 'M', unit, Part(seconds, 'S'));
    }
    if seconds.Some? {
      assert Part(seconds, 'S') == Part(seconds, 'S') + [];
      ComponentSkipsPart(seconds.value, 'S', unit, []);
    }
    assert Part(minutes, 'M') + Part(seconds, 'S') ==
           (if minutes.Some? then Part(minutes, 'M') + Part(seconds, 'S') else Part(seconds, 'S'));
  }

  lemma HoursGroup(hours: Option<nat>, minutes: Option<nat>, seconds: Option<nat>)
    ensures Component(Part(hours, 'H') + (Part(minutes, 'M') + Part(seconds, 'S')), 'H') ==
            (hours.GetOr(0), |Part(hours, 'H')|)
  {
    var tail := Part(minutes, 'M') + Part(seconds, 'S');
    if hours.Some? {
      ComponentOfPart(hours, 'H', tail);
    } else {
      assert Part(hours, 'H') + tail == tail;
      ComponentSkipsLater(minutes, seconds, 'H');
    }
  }

  lemma MinutesGroup(minutes: Option<nat>, seconds: Option<nat>)
    ensures Component(Part(minutes, 'M') + Part(seconds, 'S'), 'M') == (minutes.GetOr(0), |Part(minutes, 'M')|)
  {
    var s := Part(seconds, 'S');
    if minutes.Some? {
      ComponentOfPart(minutes, 'M', s);
    } else {
      assert Part(minutes, 'M') + s == s;
      if seconds.Some? {
        assert s == Part(seconds, 'S') + [];
        ComponentSkipsPart(seconds.value, 'S', 'M', []);
      }
    }
  }

  lemma SecondsGroup(seconds: Option<nat>)
    ensures Component(Part(seconds, 'S'), 'S') == (seconds.GetOr(0), |Part(seconds, 'S')|)
  {
    assert Part(seconds, 'S') == Part(seconds, 'S') + [];
    ComponentOfPart(seconds, 'S', []);
  }

  /**
   * Every duration of the `PT#H#M#S` form, each part optional, parses to its
   * seconds; "PT" alone is 0.
   */
  lemma {:induction false} ParseIsoText(hours: Option<nat>, minutes: Option<nat>, seconds: Option<nat>)
    ensures ParseIsoDuration(IsoText(hours, minutes, seconds)).Some?
    ensures ParseIsoDuration(IsoText(hours, minutes, seconds)).value ==
            seconds.GetOr(0) + minutes.GetOr(0) * 60 + hours.GetOr(0) * 60 * 60
  {
    var rest := Part(hours, 'H') + (Part(minutes, 'M') + Part(seconds, 'S'));
    var text := IsoText(hours, minutes, seconds);
    assert text == "PT" + rest;
    ParseIsoOfPT(rest);
    assert ParseIsoDuration(text) == Some(DurationAfterPT(rest));
    DurationOfIsoParts(hours, minutes, seconds);
    var total := seconds.GetOr(0) + minutes.GetOr(0) * 60 + hours.GetOr(0) * 60 * 60;
    assert DurationAfterPT(rest) == total;
    assert ParseIsoDuration(text) == Some(total);
  }

  lemma DurationOfIsoParts(hours: Option<nat>, minutes: Option<nat>, seconds: Option<nat>)
    ensures DurationAfterPT(Part(hours, 'H') + (Part(minutes, 'M') + Part(seconds, 'S'))) ==
            seconds.GetOr(0) + minutes.GetOr(0) * 60 + hours.GetOr(0) * 60 * 60
  {
    HoursGroup(hours, minutes, seconds);
    MinutesGroup(minutes, seconds);
    SecondsGroup(seconds);
    DurationOfParts(Part(hours, 'H'), Part(minutes, 'M'), Part(seconds, 'S'),
                    hours.GetOr(0), minutes.GetOr(0), seconds.GetOr(0));
  }

  lemma DurationOfParts(h: string, m: string, s: string, hv: nat, mv: nat, sv: nat)
    requires Component(h + (m + s), 'H') == (hv, |h|)
    requires Component(m + s, 'M') == (mv, |m|)
    requires Component(s, 'S') == (sv, |s|)
    ensures DurationAfterPT(h + (m + s)) == sv + mv * 60 + hv * 60 * 60
  {
    var rest := h + (m + s);
    assert rest[|h|..] == m + s;
    assert rest[|h| + |m|..] == s;
  }

  // ---------------------------------------------------------------------
  // comma_numbers
  // ---------------------------------------------------------------------

  function Reverse(s: string): (r: string)
    ensures |r| == |s|
    ensures forall i :: 0 <= i < |s| ==> r[i] == s[|s| - 1 - i]
  {
    if s == [] then [] else Reverse(s[1..]) + [s[0]]
  }

  /**
   * `gsub(/([0-9]{3}(?=([0-9])))/, "\\1" + delimiter)` scanning left to right:
   * three digits followed by a fourth get the delimiter after them.
   */
  function Group(r: string, delimiter: char): string
    decreases |r|
  {
    if |r| >= 4 && AllDigits(r[..4]) then r[..3] + [delimiter] + Group(r[3..], delimiter)
    else if r == [] then []
    else [r[0]] + Group(r[1..], delimiter)
  }

  /** comma_numbers(number, delimiter), on the decimal text of the number. */
  function CommaNumbers(number: string, delimiter: char): string {
    Reverse(Group(Reverse(number), delimiter))
  }

  /** The digits in groups of three from the right; the leftmost group has one to three. */
  function Thousands(ds: string): (groups: seq<string>)
    requires ds != []
    ensures groups != [] && 1 <= |groups[0]| <= 3
    ensures forall k :: 1 <= k < |groups| ==> |groups[k]| == 3
    decreases |ds|
  {
    if |ds| <= 3 then [ds] else Thousands(ds[..|ds| - 3]) + [ds[|ds| - 3..]]
  }

  function Concat(groups: seq<string>): string {
    if groups == [] then [] else Concat(groups[..|groups| - 1]) + groups[|groups| - 1]
  }

  lemma {:induction false} GroupShort(r: string, delimiter: char)
    requires |r| < 4
    ensures Group(r, delimiter) == r
    decreases |r|
  {
    if r != [] {
      GroupShort(r[1..], delimiter);
      assert r == [r[0]] + r[1..];
    }
  }

  lemma {:induction false} ReverseReverse(s: string)
    ensures Reverse(Reverse(s)) == s
  {
  }

  lemma ReverseAppend(a: string, b: string)
    ensures Reverse(a + b) == Reverse(b) + Reverse(a)
  {
  }

  /** Over four or more digits, the rightmost three digits become the last group. */
  lemma CommaNumbersStep(ds: string, delimiter: char)
    requires AllDigits(ds) && |ds| >= 4
    ensures CommaNumbers(ds, delimiter) ==
            CommaNumbers(ds[..|ds| - 3], delimiter) + [delimiter] + ds[|ds| - 3..]
  {
    var n := |ds|;
    var prefix, last := ds[..n - 3], ds[n - 3..];
    assert ds == prefix + last;
    var t := Reverse(ds);
    ReverseAppend(prefix, last);
    assert t == Reverse(last) + Reverse(prefix);
    assert t[..3] == Reverse(last) && t[3..] == Reverse(prefix);
    assert AllDigits(t[..4]);
    var g := Group(t[3..], delimiter);
    assert Group(t, delimiter) == Reverse(last) + ([delimiter] + g);
    ReverseAppend(Reverse(last), [delimiter] + g);
    ReverseAppend([delimiter], g);
    ReverseReverse(last);
    assert Reverse([delimiter]) == [delimiter];
  }

  lemma {:induction false} JoinSnoc(groups: seq<string>, last: string, sep: string)
    requires groups != []
    ensures Join(groups + [last], sep) == Join(groups, sep) + sep + last
    decreases |groups|
  {
    if |groups| == 1 {
      assert (groups + [last])[1..] == [last];
    } else {
      assert (groups + [last])[1..] == groups[1..] + [last];
      JoinSnoc(groups[1..], last, sep);
    }
  }

  /** comma_numbers on a digit string joins its groups of three with the delimiter. */
  lemma {:induction false} CommaNumbersGroups(ds: string, delimiter: char)
    requires AllDigits(ds) && ds != []
    ensures CommaNumbers(ds, delimiter) == Join(Thousands(ds), [delimiter])
    decreases |ds|
  {
    if |ds| <= 3 {
      GroupShort(Reverse(ds), delimiter);
      ReverseReverse(ds);
    } else {
      CommaNumbersStep(ds, delimiter);
      CommaNumbersGroups(ds[..|ds| - 3], delimiter);
      JoinSnoc(Thousands(ds[..|ds| - 3]), ds[|ds| - 3..], [delimiter]);
    }
  }

  lemma {:induction false} ThousandsConcat(ds: string)
    requires ds != []
    ensures Concat(Thousands(ds)) == ds
    ensures forall k :: 0 <= k < |Thousands(ds)| ==> AllDigits(Thousands(ds)[k]) || !AllDigits(ds)
    decreases |ds|
  {
    if |ds| > 3 {
      var groups := Thousands(ds);
      ThousandsConcat(ds[..|ds| - 3]);
      assert groups[..|groups| - 1] == Thousands(ds[..|ds| - 3]);
      assert ds == ds[..|ds| - 3] + ds[|ds| - 3..];
    } else {
      assert Concat([ds]) == Concat([]) + ds;
    }
  }

  /** Removes every `delimiter`. */
  function Strip(s: string, delimiter: char): string {
    if s == [] then [] else (if s[0] == delimiter then [] else [s[0]]) + Strip(s[1..], delimiter)
  }

  lemma {:induction false} StripAppend(a: string, b: string, delimiter: char)
    ensures Strip(a + b, delimiter) == Strip(a, delimiter) + Strip(b, delimiter)
    decreases |a|
  {
    if a != [] {
      assert (a + b)[1..] == a[1..] + b;
      StripAppend(a[1..], b, delimiter);
    } else {
      assert a + b == b;
    }
  }

  lemma {:induction false} StripDigits(ds: string, delimiter: char)
    requires AllDigits(ds) && !IsDigit(delimiter)
    ensures Strip(ds, delimiter) == ds
    decreases |ds|
  {
    if ds != [] {
      StripDigits(ds[1..], delimiter);
      assert ds == [ds[0]] + ds[1..];
    }
  }

  lemma {:induction false} StripJoined(groups: seq<string>, delimiter: char)
    requires groups != []
    requires forall k :: 0 <= k < |groups| ==> AllDigits(groups[k])
    requires !IsDigit(delimiter)
    ensures Strip(Join(groups, [delimiter]), delimiter) == Concat(groups)
    decreases |groups|
  {
    var n := |groups|;
    if n == 1 {
      StripDigits(groups[0], delimiter);
      assert Concat(groups) == Concat([]) + groups[0];
    } else {
      var init := groups[..n - 1];
      assert groups == init + [groups[n - 1]];
      JoinSnoc(init, groups[n - 1], [delimiter]);
      StripJoined(init, delimiter);
      StripAppend(Join(init, [delimiter]) + [delimiter], groups[n - 1], delimiter);
      StripAppend(Join(init, [delimiter]), [delimiter], delimiter);
      assert Strip([delimiter], delimiter) == [] + Strip([], delimiter);
      StripDigits(groups[n - 1], delimiter);
    }
  }

  lemma ThousandsDigits(ds: string)
    requires AllDigits(ds) && ds != []
    ensures forall k :: 0 <= k < |Thousands(ds)| ==> AllDigits(Thousands(ds)[k])
  {
    ThousandsConcat(ds);
  }

  /** Taking the delimiters out of comma_numbers(n) gives back the digits of n. */
  lemma CommaNumbersRoundTrip(n: nat, delimiter: char)
    requires !IsDigit(delimiter)
    ensures Strip(CommaNumbers(NatToString(n), delimiter), delimiter) == NatToString(n)
  {
    var ds := NatToString(n);
    CommaNumbersGroups(ds, delimiter);
    ThousandsDigits(ds);
    StripJoined(Thousands(ds), delimiter);
    ThousandsConcat(ds);
  }

  /**
   * Numbers of at most three digits are unchanged; longer ones are the
   * leftmost group of one to three digits and then groups of exactly three,
   * each preceded by the delimiter, so the text never starts with it.
   */
  lemma CommaNumbersShape(n: nat, delimiter: char)
    requires !IsDigit(delimiter)
    ensures var ds := NatToString(n);
            var groups := Thousands(ds);
            && (|ds| <= 3 ==> CommaNumbers(ds, delimiter) == ds)
            && CommaNumbers(ds, delimiter) == Join(groups, [delimiter])
            && 1 <= |groups[0]| <= 3
            && (forall k :: 1 <= k < |groups| ==> |groups[k]| == 3)
            && (forall k :: 0 <= k < |groups| ==> AllDigits(groups[k]))
            && CommaNumbers(ds, delimiter)[0] != delimiter
  {
    var ds := NatToString(n);
    CommaNumbersGroups(ds, delimiter);
    ThousandsDigits(ds);
    var groups := Thousands(ds);
    if |groups| == 1 {
      assert Join(groups, [delimiter]) == groups[0];
    } else {
      assert Join(groups, [delimiter]) == groups[0] + [delimiter] + Join(groups[1..], [delimiter]);
    }
    assert Join(groups, [delimiter])[0] == groups[0][0];
  }

  // ---------------------------------------------------------------------
  // The video id test of `info`
  // ---------------------------------------------------------------------

  /**
   * `movie =~ /^[A-Za-z0-9]+$/`: Ruby's `^` and `$` anchor at line breaks,
   * so some whole line of the text is a non-empty run of ASCII letters and digits.
   */
  predicate IdLine(s: string, i: int, j: int) {
    && 0 <= i < j <= |s|
    && (i == 0 || s[i - 1] == '\n')
    && (j == |s| || s[j] == '\n')
    && forall k :: i <= k < j ==> IsAsciiAlnum(s[k])
  }

  predicate LooksLikeId(movie: string) {
    exists i, j :: 0 <= i < j <= |movie| && IdLine(movie, i, j)
  }

  /** The id `info` passes to the video filter: the movie text itself, or nil. */
  function MovieId(movie: string): (id: Option<string>)
    ensures id.Some? ==> id.value == movie
  {
    if LooksLikeId(movie) then Some(movie) else None
  }

  /**
   * On a one-line text (as every IRC parameter is), the id is used exactly
   * when the text is non-empty and made only of ASCII letters and digits.
   */
  lemma MovieIdOfLine(movie: string)
    requires forall k :: 0 <= k < |movie| ==> movie[k] != '\n'
    ensures MovieId(movie).Some? <==> movie != [] && forall k :: 0 <= k < |movie| ==> IsAsciiAlnum(movie[k])
  {
    if LooksLikeId(movie) {
      var i, j :| 0 <= i < j <= |movie| && IdLine(movie, i, j);
    } else if movie != [] && forall k :: 0 <= k < |movie| ==> IsAsciiAlnum(movie[k]) {
      assert IdLine(movie, 0, |movie|);
    }
  }

  /** With several lines, one alphanumeric line is enough and the whole text becomes the id. */
  lemma MovieIdOfLines(first: string, line: string)
    requires line != [] && forall k :: 0 <= k < |line| ==> IsAsciiAlnum(line[k])
    ensures MovieId(first + "\n" + line) == Some(first + "\n" + line)
  {
    var s := first + "\n" + line;
    assert IdLine(s, |first| + 1, |s|) by {
      assert forall k :: |first| + 1 <= k < |s| ==> s[k] == line[k - |first| - 1];
    }
  }

  // ---------------------------------------------------------------------
  // gsub!(/\s+/m, " ") on the description
  // ---------------------------------------------------------------------

  /** Every run of whitespace becomes one space. */
  function Collapse(s: string): (r: string)
    ensures s == [] <==> r == []
    ensures s != [] ==> (IsSpace(s[0]) <==> r[0] == ' ')
    ensures s != [] && !IsSpace(s[0]) ==> r[0] == s[0]
  {
    if s == [] then []
    else if IsSpace(s[0]) && |s| > 1 && IsSpace(s[1]) then Collapse(s[1..])
    else if IsSpace(s[0]) then " " + Collapse(s[1..])
    else [s[0]] + Collapse(s[1..])
  }

  /** No whitespace but single spaces. */
  predicate Collapsed(s: string) {
    forall i :: 0 <= i < |s| && IsSpace(s[i]) ==> s[i] == ' ' && (i + 1 < |s| ==> !IsSpace(s[i + 1]))
  }

  /** The description filter keeps a missing (nil) description missing. */
  function CollapseDescription(desc: Option<string>): (r: Option<string>)
    ensures r.Some? <==> desc.Some?
    ensures r.Some? ==> Collapsed(r.value)
  {
    match desc
    case None => None
    case Some(d) => CollapsedResult(d); Some(Collapse(d))
  }

  lemma {:induction false} CollapsedResult(s: string)
    ensures Collapsed(Collapse(s))
    decreases |s|
  {
    if s != [] {
      CollapsedResult(s[1..]);
      var t := Collapse(s[1..]);
      if IsSpace(s[0]) && !(|s| > 1 && IsSpace(s[1])) {
        assert Collapse(s) == " " + t;
        assert forall i :: 1 <= i < |Collapse(s)| ==> Collapse(s)[i] == t[i - 1];
      } else if !IsSpace(s[0]) {
        assert Collapse(s) == [s[0]] + t;
        assert forall i :: 1 <= i < |Collapse(s)| ==> Collapse(s)[i] == t[i - 1];
      }
    }
  }

  /** Text already collapsed is left alone, so collapsing twice is collapsing once. */
  lemma {:induction false} CollapseFixes(s: string)
    requires Collapsed(s)
    ensures Collapse(s) == s
    decreases |s|
  {
    if s != [] {
      assert Collapsed(s[1..]) by {
        forall i | 0 <= i < |s[1..]| && IsSpace(s[1..][i])
          ensures s[1..][i] == ' ' && (i + 1 < |s[1..]| ==> !IsSpace(s[1..][i + 1]))
        {
          assert s[1..][i] == s[i + 1];
        }
      }
      CollapseFixes(s[1..]);
      assert s == [s[0]] + s[1..];
    }
  }

  lemma CollapseIdempotent(s: string)
    ensures Collapse(Collapse(s)) == Collapse(s)
  {
    CollapsedResult(s);
    CollapseFixes(Collapse(s));
  }

  /** The non-whitespace characters. */
  function Visible(s: string): string {
    if s == [] then [] else (if IsSpace(s[0]) then [] else [s[0]]) + Visible(s[1..])
  }

  /** Collapsing keeps every other character, in order. */
  lemma {:induction false} CollapseKeepsText(s: string)
    ensures Visible(Collapse(s)) == Visible(s)
    decreases |s|
  {
    if s != [] {
      CollapseKeepsText(s[1..]);
      var t := Collapse(s[1..]);
      if IsSpace(s[0]) && !(|s| > 1 && IsSpace(s[1])) {
        assert (" " + t)[1..] == t;
      } else if !IsSpace(s[0]) {
        assert ([s[0]] + t)[1..] == t;
      }
    }
  }

  /**
   * The collapse of a text that neither starts nor ends with whitespace is
   * its words joined by single spaces: every run of whitespace between two
   * words becomes exactly one space.
   */
  lemma {:induction false} CollapseJoinsWords(s: string)
    requires s == [] || (!IsSpace(s[0]) && !IsSpace(s[|s| - 1]))
    ensures Collapse(s) == Join(Words(s), " ")
    decreases |s|
  {
    if s != [] {
      var n := WordLength(s);
      var w, rest := s[..n], s[n..];
      assert s == w + rest;
      WordsOfWord(w, rest);
      CollapseWord(w, rest);
      if rest != [] {
        assert rest[|rest| - 1] == s[|s| - 1];
        var t := rest[SpaceRun(rest)..];
        CollapseJoinsWords(t);
        CollapseGap(w, rest, t);
      }
    }
  }

  /** One word, the whitespace after it, and the words that follow. */
  lemma CollapseGap(w: string, rest: string, t: string)
    requires w != [] && NoSpace(w)
    requires rest != [] && IsSpace(rest[0]) && !IsSpace(rest[|rest| - 1])
    requires t == rest[SpaceRun(rest)..]
    requires Collapse(t) == Join(Words(t), " ")
    ensures w + Collapse(rest) == Join([w] + Words(rest), " ")
  {
    var m := SpaceRun(rest);
    var run := rest[..m];
    assert rest == run + t;
    WordsAfterSpace(run, t);
    CollapseRun(run, t);
    var first := WordLength(t);
    assert Words(t) == [t[..first]] + Words(t[first..]);
    var parts := [w] + Words(t);
    assert parts[1..] == Words(t);
  }

  /** A word goes through the collapse unchanged. */
  lemma {:induction false} CollapseWord(w: string, x: string)
    requires NoSpace(w)
    ensures Collapse(w + x) == w + Collapse(x)
    decreases |w|
  {
    if w != [] {
      assert (w + x)[1..] == w[1..] + x && (w + x)[0] == w[0];
      assert NoSpace(w[1..]) by {
        forall i | 0 <= i < |w[1..]| ensures !IsSpace(w[1..][i]) {
          assert w[1..][i] == w[i + 1];
        }
      }
      CollapseWord(w[1..], x);
      assert !IsSpace(w[0]);
      assert Collapse(w + x) == [w[0]] + Collapse(w[1..] + x);
      assert w == [w[0]] + w[1..];
      assert [w[0]] + (w[1..] + Collapse(x)) == w + Collapse(x);
    } else {
      assert w + x == x;
    }
  }

  /** A run of whitespace in front of a word becomes one space. */
  lemma {:induction false} CollapseRun(run: string, t: string)
    requires run != [] && forall i :: 0 <= i < |run| ==> IsSpace(run[i])
    requires t != [] && !IsSpace(t[0])
    ensures Collapse(run + t) == " " + Collapse(t)
    decreases |run|
  {
    var s := run + t;
    if |run| == 1 {
      assert s[1..] == t;
    } else {
      assert s[1..] == run[1..] + t;
      CollapseRun(run[1..], t);
    }
  }
}
