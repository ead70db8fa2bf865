/**
 * The decision logic of data/rbot/plugins/weather.rb: the heat index /
 * windchill clause, the row filter of Weather Underground pages (over rows
 * already stripped of their markup), the units suffix and service selection
 * of the `weather` command with the nick -> location registry it keeps, and
 * the reply-type dispatch of `communicate`.
 */
module Weather {
  import opened Wrappers
  import opened Text

  // ---------------------------------------------------------------------
  // heat_index_or_wind_chill
  // ---------------------------------------------------------------------

  const HeatIndexLead: string := " with a heat index of "
  const WindchillLead: string := " with a windchill of "

  /** Present (any string is true in Ruby, even "") and not "NA". */
  predicate Usable(reading: Option<string>) {
    reading.Some? && reading.value != "NA"
  }

  /**
   * The clause that follows the temperature: the heat index whenever it is
   * usable, the windchill only when the heat index is not, and nothing when
   * neither is.
   */
  function HeatIndexOrWindChill(heatIndex: Option<string>, windchill: Option<string>): (clause: string)
    ensures HeatIndexLead <= clause <==> Usable(heatIndex)
    ensures Usable(heatIndex) ==> clause[|HeatIndexLead|..] == heatIndex.value
    ensures WindchillLead <= clause <==> !Usable(heatIndex) && Usable(windchill)
    ensures WindchillLead <= clause ==> clause[|WindchillLead|..] == windchill.value
    ensures clause == [] <==> !Usable(heatIndex) && !Usable(windchill)
  {
    if Usable(heatIndex) then
      var c := HeatIndexLead + heatIndex.value;
      assert c[..|HeatIndexLead|] == HeatIndexLead;
      assert !(WindchillLead <= c) by { assert c[8] != WindchillLead[8]; }
      c
    else if Usable(windchill) then
      var c := WindchillLead + windchill.value;
      assert c[..|WindchillLead|] == WindchillLead;
      assert !(HeatIndexLead <= c) by { assert c[8] != HeatIndexLead[8]; }
      c
    else ""
  }

  // ---------------------------------------------------------------------
  // wu_weather_filter
  // ---------------------------------------------------------------------

  /** A key/value row of the page, markup already removed. */
  datatype Row = Row(key: string, value: string)

  /** The values Weather Underground shows when it has no reading. */
  predicate Placeholder(value: string) {
    value == "-" || value == "- approx." || value == "N/A" || value == "N/A approx."
  }

  /** A row is reported unless its value is empty or a placeholder, or it is the raw METAR. */
  predicate Reported(row: Row) {
    row.value != [] && !Placeholder(row.value) && row.key != "Raw METAR"
  }

  function RowText(row: Row): string {
    row.key + ": " + row.value
  }

  /** The text of the reported rows, in page order. */
  function ReportedLines(rows: seq<Row>): (lines: seq<string>)
    ensures |lines| <= |rows|
  {
    if rows == [] then []
    else
      var last := rows[|rows| - 1];
      ReportedLines(rows[..|rows| - 1]) + (if Reported(last) then [RowText(last)] else [])
  }

  /** The "updated" and "observed at" texts of the page header, when it has one. */
  function HeaderLines(header: Option<(string, string)>): seq<string> {
    match header
    case None => []
    case Some((updated, observed)) => ["Weather info for " + observed + " (updated on " + updated + ")"]
  }

  /** wu_weather_filter: the header line, then the reported rows, joined with "; ". */
  method WuWeatherFilter(header: Option<(string, string)>, rows: seq<Row>) returns (text: string)
    ensures text == Join(HeaderLines(header) + ReportedLines(rows), "; ")
  {
    var result: seq<string> := [];
    if header.Some? {
      result := result + ["Weather info for " + header.value.1 + " (updated on " + header.value.0 + ")"];
    }
    var i := 0;
    while i < |rows|
      invariant 0 <= i <= |rows|
      invariant result == HeaderLines(header) + ReportedLines(rows[..i])
    {
      var row := rows[i];
      ReportedLinesStep(rows, i);
      if !Reported(row) {
        i := i + 1;
        continue;
      }
      result := result + [RowText(row)];
      i := i + 1;
    }
    assert rows[..i] == rows;
    text := Join(result, "; ");
  }

  lemma {:induction false} ReportedLinesAppend(a: seq<Row>, b: seq<Row>)
    ensures ReportedLines(a + b) == ReportedLines(a) + ReportedLines(b)
    decreases |b|
  {
    if b == [] {
      assert a + b == a;
    } else {
      var ab, init, last := a + b, b[..|b| - 1], b[|b| - 1];
      var own := if Reported(last) then [RowText(last)] else [];
      assert ab[..|ab| - 1] == a + init && ab[|ab| - 1] == last;
      assert ReportedLines(ab) == ReportedLines(a + init) + own;
      ReportedLinesAppend(a, init);
      assert ReportedLines(b) == ReportedLines(init) + own;
      assert ReportedLines(a) + ReportedLines(init) + own == ReportedLines(a) + (ReportedLines(init) + own);
    }
  }

  /**
   * Each row contributes its own line, or nothing when it is dropped, at its
   * own place: the lines of the rows before it come first, then its own, then
   * those of the rows after it.
   */
  lemma ReportedLinesAround(rows: seq<Row>, i: int)
    requires 0 <= i < |rows|
    ensures ReportedLines(rows) ==
            ReportedLines(rows[..i]) + (if Reported(rows[i]) then [RowText(rows[i])] else []) + ReportedLines(rows[i + 1..])
  {
    var before, after := rows[..i + 1], rows[i + 1..];
    assert rows == before + after;
    ReportedLinesAppend(before, after);
    ReportedLinesStep(rows, i);
  }

  /** The rows up to and including `i` add the line of row `i`, if any, to those before it. */
  lemma ReportedLinesStep(rows: seq<Row>, i: int)
    requires 0 <= i < |rows|
    ensures ReportedLines(rows[..i + 1]) ==
            ReportedLines(rows[..i]) + (if Reported(rows[i]) then [RowText(rows[i])] else [])
  {
    assert rows[..i + 1][..i] == rows[..i];
  }

  /** Every line is the text of a reported row: no empty, placeholder or raw METAR value gets through. */
  lemma {:induction false} ReportedLinesSound(rows: seq<Row>)
    ensures forall line :: line in ReportedLines(rows) ==>
              exists row :: row in rows && Reported(row) && line == RowText(row)
    decreases |rows|
  {
    if rows != [] {
      var init, last := rows[..|rows| - 1], rows[|rows| - 1];
      ReportedLinesSound(init);
      assert rows == init + [last];
      forall line | line in ReportedLines(rows)
        ensures exists row :: row in rows && Reported(row) && line == RowText(row)
      {
        if line in ReportedLines(init) {
          var row :| row in init && Reported(row) && line == RowText(row);
          assert row in rows;
        } else {
          assert last in rows && Reported(last) && line == RowText(last);
        }
      }
    }
  }

  /** Every reported row's line is in the result. */
  lemma ReportedLinesComplete(rows: seq<Row>, i: int)
    requires 0 <= i < |rows| && Reported(rows[i])
    ensures RowText(rows[i]) in ReportedLines(rows)
  {
    ReportedLinesAround(rows, i);
  }

  // ---------------------------------------------------------------------
  // weather: units and service selection, registry
  // ---------------------------------------------------------------------

  datatype Service = Nws | Station | Wu | Google | OtherService(name: string)

  /** The location a lookup is made for: the command's words, or a registry entry reused whole. */
  datatype Place = Given(words: seq<string>) | Reused(entry: Entry)

  /** A registry value `[service, where, units]`. */
  datatype Entry = Entry(service: Service, place: Place, units: Option<string>)

  /** What `weather` would ask of one of its (unmodelled) report helpers. */
  datatype Lookup = Lookup(service: Service, place: Place, wuUnits: string)

  datatype WeatherReply =
    | Unlocated                                          // "I don't know where you are yet"
    | Looked(notice: Option<string>, lookup: Lookup)     // a known service was asked
    | NoSuchService(notice: Option<string>, name: string) // "I don't know the weather service"
    | HelperRaised(notice: Option<string>, service: Service) // the report helper raised; `weather` stops

  datatype UnitsChoice = UnitsChoice(suffix: string, notice: Option<string>)

  /**
   * The Weather Underground page suffix for the units: "_english" or
   * "_metric" for those, nothing for "both" or no units, and nothing plus a
   * notice for any other units.
   */
  function UnitsSuffix(units: Option<string>): (c: UnitsChoice)
    ensures c.suffix != [] <==> units == Some("english") || units == Some("metric")
    ensures c.suffix != [] ==> c.suffix == "_" + units.value
    ensures c.notice.Some? <==> units.Some? && units.value != "english" && units.value != "metric" && units.value != "both"
    ensures c.notice.Some? ==> c.notice.value == "Ignoring unknown units " + units.value
  {
    match units
    case None => UnitsChoice("", None)
    case Some(u) =>
      if u == "english" || u == "metric" then UnitsChoice("_" + u, None)
      else if u == "both" then UnitsChoice("", None)
      else UnitsChoice("", Some("Ignoring unknown units " + u))
  }

  /** The service named by the first word of an explicit location. */
  function ServiceOf(words: seq<string>): (s: Service)
    requires words != []
    ensures s == Nws <==> words[0] == "nws"
    ensures s == Station <==> words[0] == "station"
    ensures s == Wu <==> words[0] != "nws" && words[0] != "station"
  {
    if words[0] == "nws" then Nws else if words[0] == "station" then Station else Wu
  }

  /** Ruby's `a || b` on an optional value. */
  function OrElse(a: Option<string>, b: Option<string>): (r: Option<string>)
    ensures a.Some? ==> r == a
    ensures a.None? ==> r == b
  {
    if a.Some? then a else b
  }

  datatype Selection = Selection(service: Service, place: Place, units: Option<string>)

  /**
   * The selection as written: a stored entry is reused whole as the location,
   * and an explicit location never sees the units parameter (its `units` is
   * an unassigned local, so nil).
   */
  function SelectAsWritten(registry: map<string, Entry>, nick: string, where: seq<string>, paramUnits: Option<string>): Option<Selection> {
    if where == [] then
      if nick in registry then
        var e := registry[nick];
        Some(Selection(e.service, Reused(e), OrElse(paramUnits, e.units)))
      else None
    else Some(Selection(ServiceOf(where), Given(where), None))
  }

  /** The selection with the stored location reused and the units parameter honoured. */
  function Select(registry: map<string, Entry>, nick: string, where: seq<string>, paramUnits: Option<string>): Option<Selection> {
    if where == [] then
      if nick in registry then
        var e := registry[nick];
        Some(Selection(e.service, e.place, OrElse(paramUnits, e.units)))
      else None
    else Some(Selection(ServiceOf(where), Given(where), paramUnits))
  }

  /**
   * The rest of `weather` as intended: the units notice, then the service
   * dispatch; every known service gets asked and gets the entry written for
   * the nick.
   */
  function Dispatch(registry: map<string, Entry>, nick: string, selection: Option<Selection>): (WeatherReply, map<string, Entry>) {
    match selection
    case None => (Unlocated, registry)
    case Some(s) =>
      var c := UnitsSuffix(s.units);
      if s.service.OtherService? then (NoSuchService(c.notice, s.service.name), registry)
      else (Looked(c.notice, Lookup(s.service, s.place, c.suffix)), registry[nick := Entry(s.service, s.place, s.units)])
  }

  /**
   * The rest of `weather` as written. The location handed to the helpers is
   * an array of words (or a whole stored entry), so the nws helper raises
   * when it builds its `CurrentConditions` (upcasing the array) and the
   * google helper raises when it escapes it; both do so outside their own
   * rescue, and `weather` stops before the registry write. The wu and
   * station helpers catch their own failures and return, so those two write.
   */
  function DispatchAsWritten(registry: map<string, Entry>, nick: string, selection: Option<Selection>): (WeatherReply, map<string, Entry>) {
    match selection
    case None => (Unlocated, registry)
    case Some(s) =>
      var c := UnitsSuffix(s.units);
      if s.service.OtherService? then (NoSuchService(c.notice, s.service.name), registry)
      else if s.service == Nws || s.service == Google then (HelperRaised(c.notice, s.service), registry)
      else (Looked(c.notice, Lookup(s.service, s.place, c.suffix)), registry[nick := Entry(s.service, s.place, s.units)])
  }

  /** `weather` as written: the selection and the dispatch of the code. */
  function WeatherAsWritten(registry: map<string, Entry>, nick: string, where: seq<string>, paramUnits: Option<string>): (WeatherReply, map<string, Entry>) {
    DispatchAsWritten(registry, nick, SelectAsWritten(registry, nick, where, paramUnits))
  }

  /** `weather` as intended: the stored location and the units parameter honoured, every helper reporting. */

  function WeatherSpec(registry: map<string, Entry>, nick: string, where: seq<string>, paramUnits: Option<string>): (WeatherReply, map<string, Entry>) {
    Dispatch(registry, nick, Select(registry, nick, where, paramUnits))
  }

  /** Entries hold a known service and a location given on the command line. */
  predicate ValidEntry(e: Entry) {
    !e.service.OtherService? && e.place.Given?
  }

  predicate ValidRegistry(registry: map<string, Entry>) {
    forall n :: n in registry ==> ValidEntry(registry[n])
  }

  /** Nesting depth of a location: how many entries are wrapped around the words. */
  function Depth(p: Place): nat {
    match p
    case Given(_) => 0
    case Reused(e) => 1 + Depth(e.place)
  }

  /**
   * As intended, `weather` answers "I don't know where you are" exactly when it is given
   * no location and has none stored for the nick; that, and an unknown
   * stored service, leave the registry alone; a known service writes the
   * nick's entry and no other, with the units parameter, or for a bare
   * `weather` the stored units when none is given, and asks with their suffix.
   */
  lemma WeatherRegistryWrites(registry: map<string, Entry>, nick: string, where: seq<string>, paramUnits: Option<string>)
    ensures var (reply, registry') := WeatherSpec(registry, nick, where, paramUnits);
            && (reply == Unlocated <==> where == [] && nick !in registry)
            && (!reply.Looked? ==> registry' == registry)
            && (reply.Looked? ==>
                  var units := if where == [] then OrElse(paramUnits, registry[nick].units) else paramUnits;
                  && !reply.lookup.service.OtherService?
                  && reply.notice == UnitsSuffix(units).notice
                  && reply.lookup.wuUnits == UnitsSuffix(units).suffix
                  && registry' == registry[nick := Entry(reply.lookup.service, reply.lookup.place, units)])
  {
  }

  /** As intended, the service of an explicit location is the one its first word names, and the words are passed on as given. */
  lemma ExplicitLocation(registry: map<string, Entry>, nick: string, where: seq<string>, paramUnits: Option<string>)
    requires where != []
    ensures var (reply, registry') := WeatherSpec(registry, nick, where, paramUnits);
            && reply.Looked?
            && reply.lookup.place == Given(where)
            && reply.lookup.service == ServiceOf(where)
            && reply.lookup.wuUnits == UnitsSuffix(paramUnits).suffix
            && registry'[nick] == Entry(ServiceOf(where), Given(where), paramUnits)
  {
  }

  /** As intended, `weather` keeps every entry well formed, so the unknown-service answer never comes from a registry it wrote. */
  lemma WeatherKeepsValid(registry: map<string, Entry>, nick: string, where: seq<string>, paramUnits: Option<string>)
    requires ValidRegistry(registry)
    ensures var (reply, registry') := WeatherSpec(registry, nick, where, paramUnits);
            ValidRegistry(registry') && !reply.NoSuchService?
  {
    var (reply, registry') := WeatherSpec(registry, nick, where, paramUnits);
    if where == [] && nick in registry {
      assert ValidEntry(registry[nick]);
    }
    forall n | n in registry'
      ensures ValidEntry(registry'[n])
    {
      if n != nick {
        assert registry'[n] == registry[n];
      }
    }
  }

  /**
   * As intended, once `weather <location>` has been answered, a bare `weather` asks for
   * the same report, and rewrites the same entry.
   */
  lemma WeatherRemembers(registry: map<string, Entry>, nick: string, where: seq<string>, paramUnits: Option<string>)
    requires where != []
    ensures var (first, registry1) := WeatherSpec(registry, nick, where, paramUnits);
            var (second, registry2) := WeatherSpec(registry1, nick, [], None);
            first.Looked? && second == first && registry2 == registry1
  {
    var (first, registry1) := WeatherSpec(registry, nick, where, paramUnits);
    var e := Entry(ServiceOf(where), Given(where), paramUnits);
    assert registry1 == registry[nick := e];
    assert Select(registry1, nick, [], None) == Some(Selection(e.service, e.place, e.units));
    assert registry1[nick := e] == registry1;
  }

  /** As written, an explicit location ignores the units parameter. */
  lemma UnitsIgnoredAsWritten(registry: map<string, Entry>, nick: string)
    ensures WeatherAsWritten(registry, nick, ["London"], Some("metric")).0 ==
            Looked(None, Lookup(Wu, Given(["London"]), ""))
    ensures WeatherSpec(registry, nick, ["London"], Some("metric")).0 ==
            Looked(None, Lookup(Wu, Given(["London"]), "_metric"))
  {
    assert ServiceOf(["London"]) == Wu;
  }

  /**
   * As written, a bare `weather` hands the whole stored entry on as the
   * location and stores it wrapped in a new entry, one level deeper on every
   * call, so the registry never settles.
   */
  lemma StoredEntryNestsAsWritten(registry: map<string, Entry>, nick: string)
    requires nick in registry && (registry[nick].service == Station || registry[nick].service == Wu)
    ensures var (reply, registry') := WeatherAsWritten(registry, nick, [], None);
            && reply.Looked? && reply.lookup.place == Reused(registry[nick])
            && registry'[nick].place == Reused(registry[nick])
            && Depth(registry'[nick].place) == Depth(registry[nick].place) + 1
            && registry'[nick] != registry[nick]
  {
    var e := registry[nick];
    var (reply, registry') := WeatherAsWritten(registry, nick, [], None);
    assert registry'[nick] == Entry(e.service, Reused(e), e.units);
    assert Depth(registry'[nick].place) == 1 + Depth(e.place);
  }

  /**
   * As written, `weather` answers "I don't know where you are" exactly when
   * it is given no location and has none stored for the nick; only a report
   * from the wu or station helper writes the registry, and then only the
   * nick's entry, with the service and location that were asked; its units
   * are the parameter or the stored units for a bare `weather`, and none
   * for an explicit location, and the lookup uses their suffix.
   */
  lemma WeatherRegistryWritesAsWritten(registry: map<string, Entry>, nick: string, where: seq<string>, paramUnits: Option<string>)
    ensures var (reply, registry') := WeatherAsWritten(registry, nick, where, paramUnits);
            && (reply == Unlocated <==> where == [] && nick !in registry)
            && (!reply.Looked? ==> registry' == registry)
            && (reply.Looked? ==>
                  var units := if where == [] then OrElse(paramUnits, registry[nick].units) else None;
                  && (reply.lookup.service == Station || reply.lookup.service == Wu)
                  && reply.notice == UnitsSuffix(units).notice
                  && reply.lookup.wuUnits == UnitsSuffix(units).suffix
                  && registry' == registry[nick := Entry(reply.lookup.service, reply.lookup.place, units)])
  {
  }

  /**
   * As written, an explicit location starting with "nws" makes the helper
   * raise and nothing is stored; any other goes to station or wu with the
   * words as given and no units, and is stored without units.
   */
  lemma ExplicitLocationAsWritten(registry: map<string, Entry>, nick: string, where: seq<string>, paramUnits: Option<string>)
    requires where != []
    ensures var (reply, registry') := WeatherAsWritten(registry, nick, where, paramUnits);
            && (where[0] == "nws" ==> reply == HelperRaised(None, Nws) && registry' == registry)
            && (where[0] != "nws" ==>
                  && reply == Looked(None, Lookup(ServiceOf(where), Given(where), ""))
                  && registry' == registry[nick := Entry(ServiceOf(where), Given(where), None)])
  {
  }

  /** An entry `weather` as written can store: its service is one whose helper returns. */
  predicate WrittenEntry(e: Entry) {
    e.service == Station || e.service == Wu
  }

  predicate WrittenRegistry(registry: map<string, Entry>) {
    forall n :: n in registry ==> WrittenEntry(registry[n])
  }

  /**
   * As written, every entry `weather` stores names station or wu; so on a
   * registry it wrote, the unknown-service answer never comes, and the
   * helper raises only for an explicit "nws" location.
   */
  lemma WeatherKeepsWrittenAsWritten(registry: map<string, Entry>, nick: string, where: seq<string>, paramUnits: Option<string>)
    requires WrittenRegistry(registry)
    ensures var (reply, registry') := WeatherAsWritten(registry, nick, where, paramUnits);
            && WrittenRegistry(registry')
            && !reply.NoSuchService?
            && (reply.HelperRaised? ==> where != [] && where[0] == "nws")
  {
    var (reply, registry') := WeatherAsWritten(registry, nick, where, paramUnits);
    if where == [] && nick in registry {
      assert WrittenEntry(registry[nick]);
    }
    forall n | n in registry'
      ensures WrittenEntry(registry'[n])
    {
      if n != nick {
        assert registry'[n] == registry[n];
      }
    }
  }

  class WeatherPlugin {
    /** The plugin registry: nick -> the last location asked for. */
    var registry: map<string, Entry>

    constructor (stored: map<string, Entry>)
      ensures registry == stored
    {
      registry := stored;
    }

    /**
     * The `weather [units] [where...]` command as written: a stored entry is
     * passed on whole, an explicit location drops the units parameter, and
     * the nws and google helpers raise before the registry write.
     */
    method Weather(nick: string, where: seq<string>, paramUnits: Option<string>) returns (reply: WeatherReply)
      modifies this
      ensures (reply, registry) == WeatherAsWritten(old(registry), nick, where, paramUnits)
    {
      var service: Service;
      var place: Place;
      var units: Option<string>;
      if where == [] {
        if nick !in registry {
          return Unlocated;
        }
        var stored := registry[nick];
        service := stored.service;
        place := Reused(stored);
        units := if paramUnits.Some? then paramUnits else stored.units;
      } else {
        place := Given(where);
        if where[0] == "nws" {
          service := Nws;
        } else if where[0] == "station" {
          service := Station;
        } else {
          service := Wu;
        }
        units := None;
      }

      var wuUnits := "";
      var notice: Option<string> := None;
      if units.Some? {
        var u := units.value;
        if u == "english" || u == "metric" {
          wuUnits := "_" + u;
        } else if u != "both" {
          notice := Some("Ignoring unknown units " + u);
          wuUnits := "";
        }
      }

      if service.OtherService? {
        return NoSuchService(notice, service.name);
      }
      if service == Nws || service == Google {
        return HelperRaised(notice, service);
      }
      reply := Looked(notice, Lookup(service, place, wuUnits));
      registry := registry[nick := Entry(service, place, units)];
    }
  }

  // ---------------------------------------------------------------------
  // communicate
  // ---------------------------------------------------------------------

  datatype Delivery =
    | PrivateReply               // m.reply :to => :private
    | Notify                     // m.notify
    | ChannelNotice(channel: string)
    | PublicReply                // m.reply

  /**
   * How a message goes out under the `weather.reply_type` setting: only to
   * the user for "private", "private notice", and "notice" on a private
   * message; as a notice to the channel for "notice" on a channel message;
   * and as a plain reply for "public" and any other setting.
   */
  function Communicate(replyType: string, isPrivate: bool, channel: string): (d: Delivery)
    ensures d == PrivateReply || d == Notify <==>
            replyType == "private" || replyType == "private notice" || (replyType == "notice" && isPrivate)
    ensures d == PrivateReply <==> replyType == "private"
    ensures d.ChannelNotice? <==> replyType == "notice" && !isPrivate
    ensures d.ChannelNotice? ==> d.channel == channel
    ensures d == PublicReply <==> replyType != "private" && replyType != "notice" && replyType != "private notice"
  {
    if replyType == "private" then PrivateReply
    else if replyType == "notice" then (if isPrivate then Notify else ChannelNotice(channel))
    else if replyType == "private notice" then Notify
    else PublicReply
  }
}
