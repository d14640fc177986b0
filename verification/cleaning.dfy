/** The cleaning stage: reformatting the scraped JSON lines, counting the
    entries worth keeping, and filtering them after removing the line
    breaks from descriptions. A JSON object is modelled as a map from keys
    to string values; parsing a line of JSON is a `decode` oracle. */
module Cleaning {
  import opened Wrappers
  import opened Text
  import Listing

  /** The key of a JSON object: the seven names the cleaning stage reads
      and writes each have their own constructor, and `OtherKey` carries any
      other name. */
  datatype Key = Title | Price | Beds | LivingRooms | Bathrooms | Area | Description | OtherKey(name: string)
  {
    /** The key's name in the JSON text. */
    function Name(): string
    {
      match this
      case Title => "title"
      case Price => "price"
      case Beds => "beds"
      case LivingRooms => "living_rooms"
      case Bathrooms => "bathrooms"
      case Area => "area"
      case Description => "description"
      case OtherKey(name) => name
    }
  }

  /** One JSON object with string values. */
  type Entry = map<Key, string>

  /** What `json.loads` makes of one line. */
  datatype Decoded = Malformed | Object(entry: Entry) | NonObject

  /** The exceptions the cleaning functions let escape. */
  datatype Fault = KeyError(key: Key) | AttributeError

  /** The Arabic comma that separates the parts of a listing title. */
  const TitleSeparator: char := '\U{060C}'

  /** The unit-and-bar suffix removed from the area value. */
  const AreaSuffix: string := " \U{0645}\U{00B2} |"

  /** The Arabic word for "neighbourhood" that a kept title must contain. */
  const Neighbourhood: string := "\U{062D}\U{064A}"

  /** The keys of a reformatted entry. */
  const FormattedKeys: set<Key> := {Title, Price, Beds, LivingRooms, Bathrooms, Area, Description}

  /** `entry.get(key, '')`. */
  function Lookup(e: Entry, key: Key): string
  {
    if key in e then e[key] else ""
  }

  /** The part of a title after its first Arabic comma, trimmed; the whole
      trimmed title when it has no comma. */
  function FormatTitle(title: string): string
  {
    var t := Strip(title);
    var parts := Split(t, TitleSeparator);
    if |parts| >= 2 then Strip(parts[1]) else t
  }

  /** The reformatted title is trimmed and holds no Arabic comma; it is the
      second comma-separated part of the original title, whatever padding
      surrounds the title, and the whole title when there is no comma. */
  lemma FormatTitleSpec(title: string)
    ensures Trimmed(FormatTitle(title)) && TitleSeparator !in FormatTitle(title)
    ensures TitleSeparator in title ==> FormatTitle(title) == Strip(Split(title, TitleSeparator)[1])
    ensures TitleSeparator !in title ==> FormatTitle(title) == Strip(title)
  {
    var t := Strip(title);
    var parts := Split(t, TitleSeparator);
    StripKeepsNonSpace(title, TitleSeparator);
    if |parts| >= 2 {
      assert FormatTitle(title) == Strip(parts[1]);
      SecondSegmentIgnoresPadding(title, TitleSeparator);
      StripKeepsNonSpace(parts[1], TitleSeparator);
    } else {
      assert FormatTitle(title) == t;
    }
  }

  /** Reformatting a reformatted title changes nothing. */
  lemma FormatTitleIdempotent(title: string)
    ensures FormatTitle(FormatTitle(title)) == FormatTitle(title)
  {
    var r := FormatTitle(title);
    FormatTitleSpec(title);
    FormatTitleSpec(r);
    StripUnique(r, r, 0);
  }

  /** An entry as `format_data` writes it: exactly the seven keys, and a
      description without surrounding whitespace. */
  predicate IsFormatted(e: Entry)
  {
    e.Keys == FormattedKeys && Trimmed(e[Description])
  }

  /** The per-line body of `format_data`. */
  function FormatEntry(e: Entry): (r: Entry)
    ensures IsFormatted(r)
    ensures r[Title] == FormatTitle(Lookup(e, Title))
    ensures r[Price] == Lookup(e, Price) && r[Beds] == Lookup(e, Beds)
    ensures r[LivingRooms] == Lookup(e, LivingRooms) && r[Bathrooms] == Lookup(e, Bathrooms)
    ensures r[Area] == RemoveAll(Lookup(e, Area), AreaSuffix)
    ensures r[Description] == Strip(Lookup(e, Description))
  {
    map[
      Title := FormatTitle(Lookup(e, Title)),
      Price := Lookup(e, Price),
      Beds := Lookup(e, Beds),
      LivingRooms := Lookup(e, LivingRooms),
      Bathrooms := Lookup(e, Bathrooms),
      Area := RemoveAll(Lookup(e, Area), AreaSuffix),
      Description := Strip(Lookup(e, Description))]
  }

  /** What one input line contributes: the reformatted entry of an object,
      nothing for a line that does not parse. */
  function FormatLine(decode: string -> Decoded, line: string): Option<Entry>
  {
    match decode(line)
    case Object(e) => Some(FormatEntry(e))
    case _ => None
  }

  /** `FormatLine` for a fixed decoder, as a function value. */
  function LineFormatter(decode: string -> Decoded): (f: string -> Option<Entry>)
    ensures forall line :: f(line) == FormatLine(decode, line)
  {
    line => FormatLine(decode, line)
  }

  /** One iteration of the `format_data` loop: skip a line that does not
      parse, reformat an object, raise on any other JSON value. */
  function FormatStep(decode: string -> Decoded, line: string): Result<Option<Entry>, Fault>
  {
    match decode(line)
    case Malformed => Success(None)
    case NonObject => Failure(AttributeError)
    case Object(e) => Success(Some(FormatEntry(e)))
  }

  /** `FormatStep` for a fixed decoder, as a function value. */
  function LineStep(decode: string -> Decoded): (f: string -> Result<Option<Entry>, Fault>)
    ensures forall line :: f(line) == FormatStep(decode, line)
  {
    line => FormatStep(decode, line)
  }

  /** `format_data` on the lines of the input file: malformed lines are
      skipped, and the first line that parses to something other than an
      object raises; otherwise the result is exactly the reformatted
      objects, in input order. */
  function FormatData(lines: seq<string>, decode: string -> Decoded): (r: Result<seq<Entry>, Fault>)
    ensures r.Failure? <==> exists k :: 0 <= k < |lines| && decode(lines[k]).NonObject?
    ensures r.Failure? ==> r.error == AttributeError
    ensures r.Success? ==> r.value == FilterMap(lines, LineFormatter(decode))
  {
    var r := TryFilterMap(lines, LineStep(decode));
    if r.Success? then
      TryFilterMapSucceeds(lines, LineStep(decode), LineFormatter(decode));
      r
    else r
  }

  /** Every entry `format_data` writes has the reformatted shape, and there
      is at most one per input line. */
  lemma FormatDataShape(lines: seq<string>, decode: string -> Decoded)
    requires FormatData(lines, decode).Success?
    ensures |FormatData(lines, decode).value| <= |lines|
    ensures forall k :: 0 <= k < |FormatData(lines, decode).value| ==> IsFormatted(FormatData(lines, decode).value[k])
  {
    var out := FormatData(lines, decode).value;
    forall k | 0 <= k < |out| ensures IsFormatted(out[k]) {
      FilterMapSource(lines, LineFormatter(decode), k);
    }
  }

  /** When every line parses to an object, there is one reformatted entry
      per line, in line order. */
  lemma FormatDataAllObjects(lines: seq<string>, decode: string -> Decoded)
    requires forall k :: 0 <= k < |lines| ==> decode(lines[k]).Object?
    ensures FormatData(lines, decode).Success?
    ensures |FormatData(lines, decode).value| == |lines|
    ensures forall k :: 0 <= k < |lines| ==>
      FormatData(lines, decode).value[k] == FormatEntry(decode(lines[k]).entry)
  {
    FilterMapAllSome(lines, LineFormatter(decode));
  }

  /** Each line is handled on its own: formatting two files' lines one
      after the other is formatting their concatenation. */
  lemma FormatDataConcat(a: seq<string>, b: seq<string>, decode: string -> Decoded)
    ensures FormatData(a + b, decode) == AppendResults(FormatData(a, decode), FormatData(b, decode))
  {
    TryFilterMapConcat(a, b, LineStep(decode));
  }

  /** A line that does not parse leaves no trace in the output. */
  lemma FormatDataSkipsMalformed(a: seq<string>, line: string, b: seq<string>, decode: string -> Decoded)
    requires decode(line).Malformed?
    ensures FormatData(a + [line] + b, decode) == FormatData(a + b, decode)
  {
    FormatDataConcat(a + [line], b, decode);
    FormatDataConcat(a, [line], decode);
    FormatDataConcat(a, b, decode);
    assert [line][..0] == [];
  }

  /** The newline pass of `filter_data` on one entry. */
  function StripEntryNewlines(e: Entry): (r: Entry)
    ensures r.Keys == e.Keys
    ensures forall key :: key in e && key != Description ==> r[key] == e[key]
    ensures Description in e ==> '\n' !in r[Description]
    ensures Description in e ==> r[Description] == Without(e[Description], '\n')
  {
    if Description in e then
      RemoveCharLeavesNone(e[Description], '\n');
      RemoveCharIsWithout(e[Description], '\n');
      e[Description := RemoveAll(e[Description], "\n")]
    else e
  }

  /** Removing the line breaks a second time changes nothing. */
  lemma StripEntryNewlinesIdempotent(e: Entry)
    ensures StripEntryNewlines(StripEntryNewlines(e)) == StripEntryNewlines(e)
  {
    if Description in e {
      var d := StripEntryNewlines(e)[Description];
      ContainsChar(d, '\n');
    }
  }

  /** The newline pass of `filter_data` on the whole list. */
  function StripNewlines(data: seq<Entry>): (r: seq<Entry>)
    ensures |r| == |data|
    ensures forall k :: 0 <= k < |data| ==> r[k] == StripEntryNewlines(data[k])
  {
    seq(|data|, k requires 0 <= k < |data| => StripEntryNewlines(data[k]))
  }

  /** Python truthiness of every value: no value is the empty string. */
  predicate AllNonEmpty(e: Entry)
  {
    forall key :: key in e ==> e[key] != ""
  }

  /** The filter condition: no empty value and a title naming a
      neighbourhood. */
  predicate Valid(e: Entry)
  {
    AllNonEmpty(e) && Title in e && Contains(e[Title], Neighbourhood)
  }

  /** The filter condition as Python evaluates it: the `and` short-circuits,
      so the title is looked up only when every value is non-empty, and a
      missing title then raises. */
  function CheckEntry(e: Entry): (r: Result<bool, Fault>)
    ensures r.Failure? <==> AllNonEmpty(e) && Title !in e
    ensures r.Failure? ==> r.error == KeyError(Title)
    ensures r.Success? ==> (r.value <==> Valid(e))
  {
    if !AllNonEmpty(e) then Success(false)
    else if Title !in e then Failure(KeyError(Title))
    else Success(Contains(e[Title], Neighbourhood))
  }

  /** An entry paired with whether it is kept. */
  function KeepValid(e: Entry): (r: Option<Entry>)
    ensures r.Some? <==> Valid(e)
    ensures r.Some? ==> r.value == e
  {
    if Valid(e) then Some(e) else None
  }

  /** Some entry makes the filter condition raise. */
  predicate Raises(data: seq<Entry>)
  {
    exists k :: 0 <= k < |data| && CheckEntry(data[k]).Failure?
  }

  lemma RaisesPrefix(data: seq<Entry>)
    requires data != []
    ensures Raises(data) <==> Raises(data[..|data| - 1]) || CheckEntry(data[|data| - 1]).Failure?
  {
    var n := |data| - 1;
    assert forall k :: 0 <= k < n ==> data[..n][k] == data[k];
    if Raises(data) && !CheckEntry(data[n]).Failure? {
      var k :| 0 <= k < |data| && CheckEntry(data[k]).Failure?;
      assert data[..n][k] == data[k];
    }
  }

  /** The list comprehension of `filter_data`: the valid entries in order,
      or the `KeyError` of the first entry whose title lookup raises. */
  function Filter(data: seq<Entry>): (r: Result<seq<Entry>, Fault>)
    ensures r.Failure? <==> Raises(data)
    ensures r.Failure? ==> r.error == KeyError(Title)
    ensures r.Success? ==> r.value == FilterMap(data, KeepValid)
  {
    if data == [] then Success([])
    else
      var n := |data| - 1;
      RaisesPrefix(data);
      match Filter(data[..n])
      case Failure(f) => Failure(f)
      case Success(kept) =>
        match CheckEntry(data[n])
        case Failure(f) => Failure(f)
        case Success(keep) => if keep then Success(kept + [data[n]]) else Success(kept)
  }

  /** Every entry the filter keeps satisfies the condition. */
  lemma {:induction false} FilterKeepsOnlyValid(data: seq<Entry>, k: int)
    requires Filter(data).Success? && 0 <= k < |Filter(data).value|
    ensures Valid(Filter(data).value[k]) && Filter(data).value[k] in data
  {
    FilterMapSource(data, KeepValid, k);
  }

  lemma {:induction false} FilterKeepsOnlyValidAll(data: seq<Entry>)
    ensures Filter(data).Success? ==> forall k :: 0 <= k < |Filter(data).value| ==>
      Valid(Filter(data).value[k]) && Filter(data).value[k] in data
  {
    if Filter(data).Success? {
      forall k | 0 <= k < |Filter(data).value|
        ensures Valid(Filter(data).value[k]) && Filter(data).value[k] in data
      {
        FilterKeepsOnlyValid(data, k);
      }
    }
  }

  /** Every entry that satisfies the condition is kept. */
  lemma {:induction false} FilterKeepsEveryValid(data: seq<Entry>)
    ensures Filter(data).Success? ==> forall k :: 0 <= k < |data| && Valid(data[k]) ==>
      data[k] in Filter(data).value
  {
    if Filter(data).Success? {
      forall k | 0 <= k < |data| && Valid(data[k])
        ensures data[k] in Filter(data).value
      {
        FilterMapKeepsSome(data, KeepValid, k);
      }
    }
  }

  /** Nothing is dropped exactly when every entry satisfies the condition. */
  lemma {:induction false} FilterDropsNothingIffAllValid(data: seq<Entry>)
    requires Filter(data).Success?
    ensures |Filter(data).value| == |data| <==> forall k :: 0 <= k < |data| ==> Valid(data[k])
  {
    FilterMapKeepsAll(data, KeepValid);
  }

  /** Filtering an already filtered list keeps all of it. */
  lemma {:induction false} FilterIdempotent(data: seq<Entry>)
    requires Filter(data).Success?
    ensures Filter(Filter(data).value) == Filter(data)
  {
    var kept := Filter(data).value;
    forall k | 0 <= k < |kept| ensures KeepValid(kept[k]) == Some(kept[k]) {
      FilterKeepsOnlyValid(data, k);
    }
    FilterMapIdentity(kept, KeepValid);
  }

  /** `count_valid_entries`: how many entries satisfy the condition, or the
      `KeyError` of the first entry whose title lookup raises. */
  function Count(data: seq<Entry>): (r: Result<nat, Fault>)
    ensures r.Failure? <==> Raises(data)
    ensures r.Failure? ==> r.error == KeyError(Title)
    ensures r.Success? ==> r.value <= |data|
  {
    if data == [] then Success(0)
    else
      var n := |data| - 1;
      RaisesPrefix(data);
      match Count(data[..n])
      case Failure(f) => Failure(f)
      case Success(c) =>
        match CheckEntry(data[n])
        case Failure(f) => Failure(f)
        case Success(keep) => if keep then Success(c + 1) else Success(c)
  }

  /** Counting agrees with filtering: the count is the length of the
      filtered list, and one raises exactly when the other does. */
  lemma {:induction false} CountMatchesFilter(data: seq<Entry>)
    ensures Count(data).Success? <==> Filter(data).Success?
    ensures Count(data).Success? ==> Count(data).value == |Filter(data).value|
  {
    if data != [] {
      CountMatchesFilter(data[..|data| - 1]);
    }
  }

  /** `filter_data` on the loaded list: newline removal, then the filter. */
  function FilterData(data: seq<Entry>): (r: Result<seq<Entry>, Fault>)
    ensures r.Failure? <==> Raises(StripNewlines(data))
    ensures r.Success? ==> r.value == FilterMap(StripNewlines(data), KeepValid)
    ensures r.Success? ==> forall k :: 0 <= k < |r.value| ==> Valid(r.value[k])
    ensures r.Success? ==> forall k :: 0 <= k < |r.value| ==> Description in r.value[k] ==> '\n' !in r.value[k][Description]
    ensures r.Success? ==> forall k :: 0 <= k < |data| && Valid(StripEntryNewlines(data[k])) ==>
      StripEntryNewlines(data[k]) in r.value
  {
    FilterKeepsOnlyValidAll(StripNewlines(data));
    FilterKeepsEveryValid(StripNewlines(data));
    Filter(StripNewlines(data))
  }

  /** Running the file filter again on its own output changes nothing. */
  lemma FilterDataIdempotent(data: seq<Entry>)
    requires FilterData(data).Success?
    ensures FilterData(FilterData(data).value) == FilterData(data)
  {
    var cleaned := StripNewlines(data);
    var out := Filter(cleaned).value;
    forall k | 0 <= k < |out| ensures StripEntryNewlines(out[k]) == out[k] {
      FilterKeepsOnlyValid(cleaned, k);
      var j :| 0 <= j < |cleaned| && cleaned[j] == out[k];
      StripEntryNewlinesIdempotent(data[j]);
    }
    assert StripNewlines(out) == out;
    FilterIdempotent(cleaned);
  }

  /** On a reformatted entry the newline pass never changes the verdict: a
      trimmed description starts with a non-space character, which survives
      the removal, and the title is untouched. */
  lemma NewlinesKeepVerdict(e: Entry)
    requires IsFormatted(e)
    ensures CheckEntry(e).Success? && CheckEntry(StripEntryNewlines(e)).Success?
    ensures Valid(StripEntryNewlines(e)) <==> Valid(e)
  {
    var d := e[Description];
    if d != [] {
      RemoveCharKeepsHead(d, '\n');
    }
    var s := StripEntryNewlines(e);
    assert s[Description] == "" <==> d == "";
    assert AllNonEmpty(s) <==> AllNonEmpty(e) by {
      if AllNonEmpty(e) {
        forall key | key in s ensures s[key] != "" {
          if key != Description {
            assert s[key] == e[key];
          }
        }
      }
      if AllNonEmpty(s) {
        forall key | key in e ensures e[key] != "" {
          if key != Description {
            assert s[key] == e[key];
          }
        }
      }
    }
  }

  /** The count printed by the cleaning script equals the number of entries
      `filter_data` writes, even though the count is taken before the
      newline pass, and neither of them raises. */
  lemma {:induction false} CountAgreesWithFilterData(data: seq<Entry>)
    requires forall k :: 0 <= k < |data| ==> IsFormatted(data[k])
    ensures Count(data).Success? && FilterData(data).Success?
    ensures Count(data).value == |FilterData(data).value|
  {
    var cleaned := StripNewlines(data);
    forall k | 0 <= k < |data| ensures CheckEntry(data[k]).Success? && CheckEntry(cleaned[k]).Success?
      && (KeepValid(data[k]).Some? <==> KeepValid(cleaned[k]).Some?) {
      NewlinesKeepVerdict(data[k]);
    }
    CountMatchesFilter(data);
    FilterMapSameShape(data, KeepValid, cleaned, KeepValid);
  }

  /** The whole cleaning run: reformat the lines, count, and filter; the
      count and the filtered list agree whenever reformatting succeeds. */
  lemma PipelineCountsWhatItWrites(lines: seq<string>, decode: string -> Decoded)
    requires FormatData(lines, decode).Success?
    ensures var formatted := FormatData(lines, decode).value;
      Count(formatted).Success? && FilterData(formatted).Success? &&
      Count(formatted).value == |FilterData(formatted).value|
  {
    FormatDataShape(lines, decode);
    CountAgreesWithFilterData(FormatData(lines, decode).value);
  }

  /** The JSON object `parse_soup` builds for one record: the seven keys,
      each holding the record's field of the same name. */
  function ToEntry(rec: Listing.Record): (e: Entry)
    ensures e.Keys == FormattedKeys
    ensures e[Title] == rec.title && e[Description] == rec.description
    ensures e[Price] == rec.price && e[Area] == rec.area
    ensures e[Beds] == rec.beds && e[LivingRooms] == rec.livingRooms && e[Bathrooms] == rec.bathrooms
  {
    map[
      Title := rec.title,
      Price := rec.price,
      Beds := rec.beds,
      LivingRooms := rec.livingRooms,
      Bathrooms := rec.bathrooms,
      Area := rec.area,
      Description := rec.description]
  }

  /** The fields the scraper already normalised pass through reformatting
      unchanged: the price, the room counts, and the area, since a numeral
      holds no space and so never contains the removed suffix. The title
      and the description are the reformatted scraped ones. */
  lemma ScrapedFieldsSurviveFormatting(rec: Listing.Record)
    requires rec.area == "" || Listing.IsNumeral(rec.area)
    ensures var r := FormatEntry(ToEntry(rec));
      r[Price] == rec.price && r[Beds] == rec.beds && r[LivingRooms] == rec.livingRooms
      && r[Bathrooms] == rec.bathrooms && r[Area] == rec.area
      && r[Title] == FormatTitle(rec.title) && r[Description] == Strip(rec.description)
  {
    assert !Contains(rec.area, AreaSuffix) by {
      if rec.area != "" {
        Listing.NumeralHasNoSpace(rec.area);
      }
      PatternCharsOccur(rec.area, AreaSuffix, ' ');
    }
    var e := ToEntry(rec);
    assert Lookup(e, Price) == rec.price && Lookup(e, Beds) == rec.beds;
    assert Lookup(e, LivingRooms) == rec.livingRooms && Lookup(e, Bathrooms) == rec.bathrooms;
    assert Lookup(e, Area) == rec.area;
    assert Lookup(e, Title) == rec.title && Lookup(e, Description) == rec.description;
    var r := FormatEntry(e);
    assert r[Area] == RemoveAll(rec.area, AreaSuffix);
  }
}
