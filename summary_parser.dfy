/**
 * `custom_json_parser` and the `GitHubIssueSummary` record: a lenient,
 * line-by-line reading of a language-model reply that is meant to be a
 * JSON object with five fields.
 *
 * `serde_json::from_str` is a parameter (`parse`); the JSON values it
 * yields are the datatype `Json`, and the two typed conversions
 * (`serde_json::from_value` into `Vec<String>` and into `String`) are
 * written out on it.
 */
module SummaryParser {
  import opened Wrappers
  import opened Text

  /** A JSON value, as `serde_json::Value` holds it. */
  datatype Json =
    | JNull
    | JBool(b: bool)
    | JNumber(literal: string)
    | JString(s: string)
    | JArray(items: seq<Json>)
    | JObject(members: seq<(string, Json)>)

  /** The record the parser fills; every field is independently optional. */
  datatype GitHubIssueSummary = GitHubIssueSummary(
    principalArguments: Option<seq<string>>,
    suggestedSolutions: Option<seq<string>>,
    areasOfConsensus: Option<seq<string>>,
    areasOfDisagreement: Option<seq<string>>,
    conciseSummary: Option<string>)

  const PrincipalArguments: string := "PrincipalArguments"
  const SuggestedSolutions: string := "SuggestedSolutions"
  const AreasOfConsensus: string := "AreasOfConsensus"
  const AreasOfDisagreement: string := "AreasOfDisagreement"
  const ConciseSummary: string := "ConciseSummary"

  /** Values shorter than this many UTF-8 bytes are ignored as noise. */
  const MinValueBytes: nat := 15

  // ---------------------------------------------------------------------
  // Typed conversions

  /** JSON strings for a list of strings. */
  function Strings(xs: seq<string>): (r: seq<Json>)
    ensures |r| == |xs|
    ensures forall i :: 0 <= i < |xs| ==> r[i] == JString(xs[i])
  {
    if xs == [] then [] else [JString(xs[0])] + Strings(xs[1..])
  }

  /** The strings of a sequence of JSON values, if every one of them is a string. */
  function StringItems(items: seq<Json>): (r: Option<seq<string>>)
    ensures r.Some? <==> forall i :: 0 <= i < |items| ==> items[i].JString?
    ensures r.Some? ==> items == Strings(r.value)
  {
    if items == [] then Some([])
    else if !items[0].JString? then None
    else match StringItems(items[1..])
      case None => None
      case Some(rest) => Some([items[0].s] + rest)
  }

  /** `serde_json::from_value::<Vec<String>>`: succeeds on an array of strings only. */
  function AsStringList(j: Json): (r: Option<seq<string>>)
    ensures r.Some? ==> j == JArray(Strings(r.value))
  {
    if j.JArray? then StringItems(j.items) else None
  }

  /** `serde_json::from_value::<String>`: succeeds on a string only. */
  function AsString(j: Json): (r: Option<string>)
    ensures r.Some? <==> j.JString?
    ensures r.Some? ==> j == JString(r.value)
  {
    if j.JString? then Some(j.s) else None
  }

  /** A list of strings converts back to itself. */
  lemma {:induction false} StringListRoundTrip(xs: seq<string>)
    ensures AsStringList(JArray(Strings(xs))) == Some(xs)
  {
    StringItemsOfStrings(xs);
  }

  lemma {:induction false} StringItemsOfStrings(xs: seq<string>)
    ensures StringItems(Strings(xs)) == Some(xs)
  {
    if xs != [] {
      StringItemsOfStrings(xs[1..]);
      assert Strings(xs)[1..] == Strings(xs[1..]);
      assert xs == [xs[0]] + xs[1..];
    }
  }

  /** A JSON string is no list: under a list field it leaves the field empty. */
  lemma StringIsNoList(s: string)
    ensures AsStringList(JString(s)) == None
  {
  }

  // ---------------------------------------------------------------------
  // One line

  /** `|c| c == '"' || c == ' '`, the characters trimmed off a key. */
  predicate IsQuoteOrSpace(c: char) {
    c == '"' || c == ' '
  }

  /** The trimmed line starts with a double quote. */
  predicate StartsWithQuote(line: string) {
    StartsWith(Trim(line), "\"")
  }

  /**
   * Lines 354-358: the key and the raw value of a line, or nothing. The
   * value is everything after the first colon (the split at every colon
   * and the join of all pieces but the first undo each other), and the key
   * is the text before it with quotes and spaces trimmed off both ends.
   */
  function KeyValue(line: string): (r: Option<(string, string)>)
    ensures r.Some? <==> StartsWithQuote(line) && Find(line, ':') < |line|
    ensures r.Some? ==>
      var colon := Find(line, ':');
      r.value == (TrimMatches(line[..colon], IsQuoteOrSpace), line[colon + 1..])
  {
    if !StartsWithQuote(line) then None
    else
      var parts := Split(line, ':');
      if |parts| >= 2 then
        PairOfParts(line);
        Some((TrimMatches(parts[0], IsQuoteOrSpace), Join(parts[1..], ":")))
      else None
  }

  /** The key and value built from the pieces are the text around the first colon. */
  lemma PairOfParts(line: string)
    requires |Split(line, ':')| >= 2
    ensures var colon := Find(line, ':');
      colon < |line|
      && (TrimMatches(Split(line, ':')[0], IsQuoteOrSpace), Join(Split(line, ':')[1..], ":"))
         == (TrimMatches(line[..colon], IsQuoteOrSpace), line[colon + 1..])
  {
    SplitFirstRest(line, ':');
    assert ":" == [':'];
  }

  /**
   * The pair a line stores, if any: the key and raw value of `KeyValue`,
   * when that value is at least 15 bytes long and parses; the value stored
   * is what the parser returned.
   */
  function Entry(line: string, parse: string -> Option<Json>): (r: Option<(string, Json)>)
    ensures r.Some? <==> KeyValue(line).Some? && ByteLen(KeyValue(line).value.1) >= MinValueBytes
                         && parse(KeyValue(line).value.1).Some?
    ensures r.Some? ==> r.value.0 == KeyValue(line).value.0 && parse(KeyValue(line).value.1) == Some(r.value.1)
  {
    match KeyValue(line)
    case None => None
    case Some((key, value)) =>
      if ByteLen(value) >= MinValueBytes && parse(value).Some? then Some((key, parse(value).value))
      else None
  }

  /**
   * The same promise stated on the line itself: a line stores a pair
   * exactly when its trimmed form starts with a quote, it has a colon, and
   * the text after the first colon is at least 15 bytes long and parses;
   * the key is the text before that colon with quotes and spaces trimmed
   * off, and the value is what the parser made of the text after it.
   */
  lemma EntryByColon(line: string, parse: string -> Option<Json>)
    ensures var c := Find(line, ':');
      var v := if c < |line| then line[c + 1..] else [];
      Entry(line, parse).Some? <==>
        StartsWithQuote(line) && c < |line| && ByteLen(v) >= MinValueBytes && parse(v).Some?
    ensures var c := Find(line, ':');
      Entry(line, parse).Some? ==>
        c < |line| && Entry(line, parse).value.0 == TrimMatches(line[..c], IsQuoteOrSpace)
        && parse(line[c + 1..]) == Some(Entry(line, parse).value.1)
  {
  }

  /** What each line stores, in order. */
  function Entries(lines: seq<string>, parse: string -> Option<Json>): (r: seq<Option<(string, Json)>>)
    ensures |r| == |lines|
    ensures forall i :: 0 <= i < |lines| ==> r[i] == Entry(lines[i], parse)
  {
    seq(|lines|, i requires 0 <= i < |lines| => Entry(lines[i], parse))
  }

  /** One insertion into `parsed_data`, or none. */
  function Insert(m: map<string, Json>, e: Option<(string, Json)>): map<string, Json> {
    match e
    case Some((key, j)) => m[key := j]
    case None => m
  }

  /** The map after a sequence of insertions, skipping the empty ones: last write wins. */
  function Stored(entries: seq<Option<(string, Json)>>): map<string, Json> {
    if entries == [] then map[]
    else Insert(Stored(entries[..|entries| - 1]), entries[|entries| - 1])
  }

  lemma StoredStep(entries: seq<Option<(string, Json)>>, i: nat)
    requires i < |entries|
    ensures Stored(entries[..i + 1]) == Insert(Stored(entries[..i]), entries[i])
  {
    assert entries[..i + 1][..i] == entries[..i];
  }

  /** The map `parsed_data` after all lines. */
  function Scanned(lines: seq<string>, parse: string -> Option<Json>): map<string, Json> {
    Stored(Entries(lines, parse))
  }

  // ---------------------------------------------------------------------
  // Filling the record

  function ListField(m: map<string, Json>, key: string): Option<seq<string>> {
    if key in m then AsStringList(m[key]) else None
  }

  /** Lines 370-406: each field from its own key, by its own conversion. */
  function Fill(m: map<string, Json>): GitHubIssueSummary {
    GitHubIssueSummary(
      ListField(m, PrincipalArguments),
      ListField(m, SuggestedSolutions),
      ListField(m, AreasOfConsensus),
      ListField(m, AreasOfDisagreement),
      if ConciseSummary in m then AsString(m[ConciseSummary]) else None)
  }

  /** The parser. It never fails: the result is always `Some`. */
  method CustomJsonParser(input: string, parse: string -> Option<Json>) returns (r: Option<GitHubIssueSummary>)
    ensures r.Some?
    ensures r.value == Fill(Scanned(Lines(input), parse))
  {
    var parsedData: map<string, Json> := map[];
    var lines := Lines(input);
    for i := 0 to |lines|
      invariant parsedData == Stored(Entries(lines, parse)[..i])
    {
      var line := lines[i];
      StoredStep(Entries(lines, parse), i);
      ghost var entry := Entry(line, parse);
      assert Entries(lines, parse)[i] == entry;
      if StartsWith(Trim(line), "\"") {
        var parts := Split(line, ':');
        if |parts| >= 2 {
          var key := TrimMatches(parts[0], IsQuoteOrSpace);
          var value := Join(parts[1..], ":");
          assert KeyValue(line) == Some((key, value));
          if ByteLen(value) >= MinValueBytes {
            var parsed := parse(value);
            if parsed.Some? {
              assert entry == Some((key, parsed.value));
              parsedData := parsedData[key := parsed.value];
            } else {
              assert entry == None;
            }
          } else {
            assert entry == None;
          }
        } else {
          assert entry == None;
        }
      } else {
        assert entry == None;
      }
    }
    assert Entries(lines, parse)[..|lines|] == Entries(lines, parse);

    var summary := GitHubIssueSummary(None, None, None, None, None);
    if PrincipalArguments in parsedData {
      var converted := AsStringList(parsedData[PrincipalArguments]);
      if converted.Some? {
        summary := summary.(principalArguments := converted);
      }
    }
    if SuggestedSolutions in parsedData {
      var converted := AsStringList(parsedData[SuggestedSolutions]);
      if converted.Some? {
        summary := summary.(suggestedSolutions := converted);
      }
    }
    if AreasOfConsensus in parsedData {
      var converted := AsStringList(parsedData[AreasOfConsensus]);
      if converted.Some? {
        summary := summary.(areasOfConsensus := converted);
      }
    }
    if AreasOfDisagreement in parsedData {
      var converted := AsStringList(parsedData[AreasOfDisagreement]);
      if converted.Some? {
        summary := summary.(areasOfDisagreement := converted);
      }
    }
    if ConciseSummary in parsedData {
      var converted := AsString(parsedData[ConciseSummary]);
      if converted.Some? {
        summary := summary.(conciseSummary := converted);
      }
    }
    assert summary == Fill(parsedData);
    return Some(summary);
  }

  // ---------------------------------------------------------------------
  // Properties of the scan

  /** A line that stores nothing leaves the map as it was. */
  lemma IgnoredLineKeepsMap(lines: seq<string>, line: string, parse: string -> Option<Json>)
    requires Entry(line, parse).None?
    ensures Scanned(lines + [line], parse) == Scanned(lines, parse)
  {
    var after, now := Entries(lines + [line], parse), Entries(lines, parse);
    forall i | 0 <= i < |lines| ensures after[i] == now[i] {
      assert (lines + [line])[i] == lines[i];
    }
    assert after[..|lines|] == now;
    assert after[|lines|] == Entry(line, parse);
  }

  /** The entry stores a pair under `key`. */
  predicate HasKey(e: Option<(string, Json)>, key: string) {
    e.Some? && e.value.0 == key
  }

  /** The line stores a pair under `key`. */
  predicate StoresKey(line: string, parse: string -> Option<Json>, key: string) {
    HasKey(Entry(line, parse), key)
  }

  lemma {:induction false} StoredKeys(entries: seq<Option<(string, Json)>>, key: string)
    ensures key in Stored(entries) <==> exists j :: 0 <= j < |entries| && HasKey(entries[j], key)
  {
    if entries != [] {
      var n := |entries| - 1;
      var before := entries[..n];
      StoredKeys(before, key);
      if !HasKey(entries[n], key) {
        if key in Stored(entries) {
          var j :| 0 <= j < |before| && HasKey(before[j], key);
          assert entries[j] == before[j];
        }
        if exists j :: 0 <= j < |entries| && HasKey(entries[j], key) {
          var j :| 0 <= j < |entries| && HasKey(entries[j], key);
          assert j < n && before[j] == entries[j];
        }
      }
    }
  }

  lemma {:induction false} StoredLast(entries: seq<Option<(string, Json)>>, j: nat, key: string, v: Json)
    requires j < |entries| && entries[j] == Some((key, v))
    requires forall k :: j < k < |entries| ==> !HasKey(entries[k], key)
    ensures key in Stored(entries) && Stored(entries)[key] == v
  {
    var before := entries[..|entries| - 1];
    if j < |entries| - 1 {
      assert forall k :: j < k < |before| ==> before[k] == entries[k];
      StoredLast(before, j, key, v);
    }
  }

  /** When no line stores anything, the map stays empty. */
  lemma {:induction false} NothingStored(entries: seq<Option<(string, Json)>>)
    requires forall i :: 0 <= i < |entries| ==> entries[i].None?
    ensures Stored(entries) == map[]
  {
    if entries != [] {
      NothingStored(entries[..|entries| - 1]);
    }
  }

  /** A key is in the map exactly when some line stored a pair under it. */
  lemma ScannedKeys(lines: seq<string>, parse: string -> Option<Json>, key: string)
    ensures key in Scanned(lines, parse) <==> exists j :: 0 <= j < |lines| && StoresKey(lines[j], parse, key)
  {
    var entries := Entries(lines, parse);
    StoredKeys(entries, key);
    assert forall j :: 0 <= j < |lines| ==> entries[j] == Entry(lines[j], parse);
  }

  /**
   * Last write wins: the value under a key is the one from the last line
   * that stored a pair under that key.
   */
  lemma LastWriteWins(lines: seq<string>, parse: string -> Option<Json>, j: nat, key: string, v: Json)
    requires j < |lines| && Entry(lines[j], parse) == Some((key, v))
    requires forall k :: j < k < |lines| ==> !StoresKey(lines[k], parse, key)
    ensures key in Scanned(lines, parse) && Scanned(lines, parse)[key] == v
  {
    StoredLast(Entries(lines, parse), j, key, v);
  }

  // ---------------------------------------------------------------------
  // Properties of the record

  /**
   * Each field is present exactly when its key is in the map and the value
   * there has the field's shape: an array of strings for the four list
   * fields, a string for the summary. The value is then recovered exactly.
   */
  lemma FieldsByShape(m: map<string, Json>, xs: seq<string>, s: string)
    ensures Fill(m).principalArguments == Some(xs) <==> PrincipalArguments in m && m[PrincipalArguments] == JArray(Strings(xs))
    ensures Fill(m).suggestedSolutions == Some(xs) <==> SuggestedSolutions in m && m[SuggestedSolutions] == JArray(Strings(xs))
    ensures Fill(m).areasOfConsensus == Some(xs) <==> AreasOfConsensus in m && m[AreasOfConsensus] == JArray(Strings(xs))
    ensures Fill(m).areasOfDisagreement == Some(xs) <==> AreasOfDisagreement in m && m[AreasOfDisagreement] == JArray(Strings(xs))
    ensures Fill(m).conciseSummary == Some(s) <==> ConciseSummary in m && m[ConciseSummary] == JString(s)
  {
    StringListRoundTrip(xs);
  }

  /**
   * Fields are filled independently: storing a value under one key changes
   * at most the field of that key.
   */
  lemma FieldsIndependent(m: map<string, Json>, key: string, v: Json)
    ensures key != PrincipalArguments ==> Fill(m[key := v]).principalArguments == Fill(m).principalArguments
    ensures key != SuggestedSolutions ==> Fill(m[key := v]).suggestedSolutions == Fill(m).suggestedSolutions
    ensures key != AreasOfConsensus ==> Fill(m[key := v]).areasOfConsensus == Fill(m).areasOfConsensus
    ensures key != AreasOfDisagreement ==> Fill(m[key := v]).areasOfDisagreement == Fill(m).areasOfDisagreement
    ensures key != ConciseSummary ==> Fill(m[key := v]).conciseSummary == Fill(m).conciseSummary
  {
  }

  /**
   * A field comes from the last line that stored its key: if that line's
   * value is an array of strings, the field holds exactly those strings.
   */
  lemma FieldFromLastLine(lines: seq<string>, parse: string -> Option<Json>, j: nat, xs: seq<string>)
    requires j < |lines| && Entry(lines[j], parse) == Some((PrincipalArguments, JArray(Strings(xs))))
    requires forall k :: j < k < |lines| ==> !StoresKey(lines[k], parse, PrincipalArguments)
    ensures Fill(Scanned(lines, parse)).principalArguments == Some(xs)
  {
    LastWriteWins(lines, parse, j, PrincipalArguments, JArray(Strings(xs)));
    StringListRoundTrip(xs);
  }

  /** The text after the first colon, when the colon is the one after `key`. */
  lemma ValueAfterColon(line: string, key: string, value: string)
    requires line == key + [':'] + value
    requires forall j :: 0 <= j < |key| ==> key[j] != ':'
    ensures Find(line, ':') == |key| && line[|key| + 1..] == value
  {
    assert line[..|key|] == key;
    FindIs(line, ':', |key|);
    assert line[|key| + 1..] == value;
  }

  /** `"PrincipalArguments": ["a", "b"]` stores nothing: its value is 11 bytes long. */
  lemma ShortListLineIgnored(key: string, value: string, parse: string -> Option<Json>)
    requires key == "\"PrincipalArguments\"" && value == " [\"a\", \"b\"]"
    ensures Entry(key + ":" + value, parse).None?
  {
    ValueAfterColon(key + ":" + value, key, value);
    AsciiByteLen(value);
  }

  /** `SuggestedSolutions: cannot parse this` stores nothing: it does not start with a quote. */
  lemma StrayLineIgnored(line: string, parse: string -> Option<Json>)
    requires line == "SuggestedSolutions: cannot parse this"
    ensures Entry(line, parse).None?
  {
    assert !IsWhitespace(line[0]) && !IsWhitespace(line[|line| - 1]);
    assert TrimStart(line, IsWhitespace) == line;
    assert Trim(line)[..1] != "\"";
  }

  lemma TwoLines(input: string, first: string, second: string)
    requires input == first + ['\n'] + second
    requires forall j :: 0 <= j < |first| ==> first[j] != '\n'
    requires forall j :: 0 <= j < |second| ==> second[j] != '\n'
    requires first != [] && first[|first| - 1] != '\r' && second != []
    ensures Lines(input) == [first, second]
  {
    assert input[..|first|] == first;
    FindIs(input, '\n', |first|);
    assert input[|first| + 1..] == second;
  }

  lemma ReplyLines(key: string, value: string, stray: string)
    requires key == "\"PrincipalArguments\"" && value == " [\"a\", \"b\"]"
    requires stray == "SuggestedSolutions: cannot parse this"
    ensures Lines(key + ":" + value + "\n" + stray) == [key + ":" + value, stray]
  {
    var listLine := key + ":" + value;
    TwoLines(listLine + "\n" + stray, listLine, stray);
  }

  lemma TwoIgnoredLines(a: string, b: string, parse: string -> Option<Json>)
    requires Entry(a, parse).None? && Entry(b, parse).None?
    ensures Fill(Scanned([a, b], parse)) == GitHubIssueSummary(None, None, None, None, None)
  {
    var e := Entries([a, b], parse);
    forall i | 0 <= i < |e|
      ensures e[i].None?
    {
      if i == 0 {
        assert e[i] == Entry(a, parse);
      } else {
        assert e[i] == Entry(b, parse);
      }
    }
    NothingStored(e);
  }

  /**
   * A reply holding `"PrincipalArguments": ["a", "b"]` followed by the
   * stray line `SuggestedSolutions: cannot parse this` yields an empty
   * record, whatever the JSON parser does.
   */
  lemma ShortListAndStrayLine(key: string, value: string, stray: string, parse: string -> Option<Json>)
    requires key == "\"PrincipalArguments\"" && value == " [\"a\", \"b\"]"
    requires stray == "SuggestedSolutions: cannot parse this"
    ensures Fill(Scanned(Lines(key + ":" + value + "\n" + stray), parse)) == GitHubIssueSummary(None, None, None, None, None)
  {
    ReplyLines(key, value, stray);
    ShortListLineIgnored(key, value, parse);
    StrayLineIgnored(stray, parse);
    TwoIgnoredLines(key + ":" + value, stray, parse);
  }

  /** A value shorter than 15 bytes is never stored, whatever it parses to. */
  lemma ShortValueIgnored(line: string, parse: string -> Option<Json>)
    requires KeyValue(line).Some? && ByteLen(KeyValue(line).value.1) < MinValueBytes
    ensures Entry(line, parse).None?
  {
  }
}
