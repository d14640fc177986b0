/** `Scraper.parse_soup`: turning the listing cards of one rendered catalog
    page into listing records. The markup is abstracted: each card carries
    the already-extracted, already-stripped text of the elements the
    scraper's selectors would find, or `None` where an element is missing. */
module Listing {
  import opened Wrappers
  import opened Text

  /** One spec element of a card: its stripped text and, when the element
      holds a `span img`, that image's `alt` attribute. */
  datatype Spec = Spec(text: string, iconAlt: Option<string>)

  /** The content block of a card: the `h4` title, the price paragraph and
      the list of spec elements under the specs container. */
  datatype Content = Content(title: Option<string>, price: Option<string>, specs: Option<seq<Spec>>)

  /** One listing card: its content block and its description element. */
  datatype Card = Card(content: Option<Content>, description: Option<string>)

  /** One extracted listing, with the seven keys the scraper writes. */
  datatype Record = Record(
    title: string,
    price: string,
    beds: string,
    livingRooms: string,
    bathrooms: string,
    area: string,
    description: string)

  // ---------------------------------------------------------------------
  // The area pattern (\d+(\.\d+)?)(?= م²)

  /** The decimal digits the pattern's `\d` accepts in this model: ASCII,
      Arabic-Indic and Extended Arabic-Indic. */
  predicate IsDigit(c: char)
  {
    ('0' <= c <= '9') || ('\U{660}' <= c <= '\U{669}') || ('\U{6F0}' <= c <= '\U{6F9}')
  }

  /** `s[a..b]` is a non-empty run of digits. */
  predicate DigitsIn(s: string, a: int, b: int)
  {
    0 <= a < b <= |s| && forall k :: a <= k < b ==> IsDigit(s[k])
  }

  /** `s[a..b]` is digits, optionally followed by a point and more digits. */
  predicate NumeralIn(s: string, a: int, b: int)
  {
    || DigitsIn(s, a, b)
    || exists p :: a < p < b && DigitsIn(s, a, p) && DigitsIn(s, p + 1, b) && s[p] == '.'
  }

  predicate IsNumeral(t: string)
  {
    NumeralIn(t, 0, |t|)
  }

  /** The area unit " م²" (space, Arabic meem, superscript two) starts at `j`. */
  predicate UnitAt(s: string, j: int)
  {
    0 <= j && j + 3 <= |s| && s[j] == ' ' && s[j + 1] == '\U{645}' && s[j + 2] == '\U{B2}'
  }

  /** The pattern matches `s[i..j]`: a numeral that the unit follows. */
  predicate AreaMatchAt(s: string, i: int, j: int)
  {
    NumeralIn(s, i, j) && UnitAt(s, j)
  }

  ghost predicate HasAreaMatch(s: string)
  {
    exists i, j :: AreaMatchAt(s, i, j)
  }

  /** The end of the maximal run of digits starting at `i`. */
  function DigitRunEnd(s: string, i: int): (j: int)
    requires 0 <= i <= |s|
    ensures i <= j <= |s|
    ensures forall k :: i <= k < j ==> IsDigit(s[k])
    ensures j == |s| || !IsDigit(s[j])
    decreases |s| - i
  {
    if i < |s| && IsDigit(s[i]) then DigitRunEnd(s, i + 1) else i
  }

  /** A match starting at `i` is forced by the digit runs: either the run
      from `i` is followed by the unit, or it is followed by a point and a
      second run that the unit follows. So at most one match starts at `i`. */
  lemma MatchDetermined(s: string, i: int, j: int)
    requires 0 <= i <= |s| && AreaMatchAt(s, i, j)
    ensures var e := DigitRunEnd(s, i);
      && e > i
      && ((j == e && UnitAt(s, e))
          || (e < |s| && s[e] == '.' && j == DigitRunEnd(s, e + 1) && j > e + 1))
  {
    var e := DigitRunEnd(s, i);
    if DigitsIn(s, i, j) {
      assert j <= e;
      assert !IsDigit(s[j]);
    } else {
      var p :| i < p < j && DigitsIn(s, i, p) && DigitsIn(s, p + 1, j) && s[p] == '.';
      assert p <= e;
      assert !IsDigit(s[p]);
      var e2 := DigitRunEnd(s, p + 1);
      assert j <= e2;
      assert !IsDigit(s[j]);
    }
  }

  /** The pattern tried at one position `i`, as the regex engine's
      backtracking resolves it. */
  function MatchAt(s: string, i: int): (r: Option<int>)
    requires 0 <= i <= |s|
    ensures r.Some? ==> AreaMatchAt(s, i, r.value)
    ensures r.None? ==> forall j :: !AreaMatchAt(s, i, j)
  {
    var e := DigitRunEnd(s, i);
    if e == i then
      NoMatchWithoutRun(s, i);
      None
    else if e < |s| && s[e] == '.' && DigitRunEnd(s, e + 1) > e + 1 && UnitAt(s, DigitRunEnd(s, e + 1)) then
      assert DigitsIn(s, i, e) && DigitsIn(s, e + 1, DigitRunEnd(s, e + 1));
      Some(DigitRunEnd(s, e + 1))
    else if UnitAt(s, e) then
      assert DigitsIn(s, i, e);
      Some(e)
    else
      NoMatchOtherwise(s, i);
      None
  }

  lemma NoMatchWithoutRun(s: string, i: int)
    requires 0 <= i <= |s| && DigitRunEnd(s, i) == i
    ensures forall j :: !AreaMatchAt(s, i, j)
  {
    forall j | AreaMatchAt(s, i, j) ensures false {
      MatchDetermined(s, i, j);
    }
  }

  lemma NoMatchOtherwise(s: string, i: int)
    requires 0 <= i <= |s|
    requires var e := DigitRunEnd(s, i);
      && !(e < |s| && s[e] == '.' && DigitRunEnd(s, e + 1) > e + 1 && UnitAt(s, DigitRunEnd(s, e + 1)))
      && !UnitAt(s, e)
    ensures forall j :: !AreaMatchAt(s, i, j)
  {
    forall j | AreaMatchAt(s, i, j) ensures false {
      MatchDetermined(s, i, j);
    }
  }

  /** Where a match lies in the searched text. */
  datatype Span = Span(start: int, end: int)

  /** `re.search` from position `i`: the leftmost match at or after `i`. */
  function SearchFrom(s: string, i: int): (r: Option<Span>)
    requires 0 <= i <= |s|
    ensures r.Some? ==> i <= r.value.start && AreaMatchAt(s, r.value.start, r.value.end)
    ensures r.Some? ==> forall i', j :: i <= i' < r.value.start ==> !AreaMatchAt(s, i', j)
    ensures r.None? ==> forall i', j :: i <= i' ==> !AreaMatchAt(s, i', j)
    decreases |s| - i
  {
    match MatchAt(s, i)
    case Some(j) => Some(Span(i, j))
    case None => if i == |s| then None else SearchFrom(s, i + 1)
  }

  /** A numeral found inside a text is a numeral on its own. */
  lemma NumeralSlice(s: string, a: int, b: int)
    requires NumeralIn(s, a, b)
    ensures IsNumeral(s[a..b])
  {
    var t := s[a..b];
    if !DigitsIn(s, a, b) {
      var p :| a < p < b && DigitsIn(s, a, p) && DigitsIn(s, p + 1, b) && s[p] == '.';
      assert t[p - a] == '.';
      assert DigitsIn(t, 0, p - a) && DigitsIn(t, p - a + 1, |t|);
    }
  }

  /** A numeral holds only digits and at most a point: never a space. */
  lemma NumeralHasNoSpace(t: string)
    requires IsNumeral(t)
    ensures ' ' !in t
  {
  }

  /** The text `re.search(...).group(0)` yields for a spec's text, or `None`
      when the pattern does not match anywhere. */
  function AreaOf(text: string): (r: Option<string>)
    ensures r.Some? <==> HasAreaMatch(text)
    ensures r.Some? ==> IsNumeral(r.value)
    ensures r.Some? ==> exists i, j ::
      && AreaMatchAt(text, i, j)
      && r.value == text[i..j]
      && forall i', j' :: 0 <= i' < i ==> !AreaMatchAt(text, i', j')
  {
    match SearchFrom(text, 0)
    case Some(sp) =>
      NumeralSlice(text, sp.start, sp.end);
      Some(text[sp.start..sp.end])
    case None => None
  }

  /** A run of digits followed by the unit gives exactly those digits: for
      instance "120 م²" gives "120". */
  lemma AreaOfDigitsWithUnit(d: string)
    requires DigitsIn(d, 0, |d|)
    ensures AreaOf(d + " \U{645}\U{B2}") == Some(d)
  {
    var s := d + " \U{645}\U{B2}";
    assert DigitsIn(s, 0, |d|);
    assert AreaMatchAt(s, 0, |d|);
    var r := AreaOf(s).value;
    var i, j :| AreaMatchAt(s, i, j) && r == s[i..j]
      && forall i', j' :: 0 <= i' < i ==> !AreaMatchAt(s, i', j');
    assert i == 0;
    assert DigitRunEnd(s, 0) == |d| by {
      assert !IsDigit(s[|d|]);
    }
    MatchDetermined(s, 0, j);
    assert s[0..|d|] == d;
  }

  /** A text in which the unit never occurs holds no area, whatever numbers
      it holds: the lookahead is required. */
  lemma NoUnitNoArea(t: string)
    requires forall j :: !UnitAt(t, j)
    ensures AreaOf(t) == None
  {
    assert !HasAreaMatch(t);
  }

  // ---------------------------------------------------------------------
  // Spec dispatch

  /** The record fields a spec element can set. */
  datatype Field = Beds | LivingRooms | Bathrooms | Area

  /** A spec element's effect: which field it sets, to what. */
  datatype Assignment = Assignment(field: Field, value: string)

  /** The field an icon's `alt` text stands for. */
  function IconField(alt: string): Option<Field>
  {
    if alt == "Bed" then Some(Beds)
    else if alt == "Couch" then Some(LivingRooms)
    else if alt == "Bath" then Some(Bathrooms)
    else None
  }

  /** What one spec element assigns: an area match sets the area to the
      matched numeral and the icon is then never looked at; otherwise a
      recognised icon sets its field to the whole text; anything else
      assigns nothing. */
  function SpecAssignment(sp: Spec): (r: Option<Assignment>)
    ensures HasAreaMatch(sp.text) ==> r == Some(Assignment(Area, AreaOf(sp.text).value))
    ensures !HasAreaMatch(sp.text) ==>
      if sp.iconAlt.Some? && IconField(sp.iconAlt.value).Some?
      then r == Some(Assignment(IconField(sp.iconAlt.value).value, sp.text))
      else r.None?
  {
    match AreaOf(sp.text)
    case Some(a) => Some(Assignment(Area, a))
    case None =>
      match sp.iconAlt
      case None => None
      case Some(alt) =>
        match IconField(alt)
        case None => None
        case Some(f) => Some(Assignment(f, sp.text))
  }

  /** `sp` assigns field `fld`. */
  predicate Assigns(sp: Spec, fld: Field)
  {
    SpecAssignment(sp).Some? && SpecAssignment(sp).value.field == fld
  }

  /** The four spec-derived fields while the spec elements are walked. */
  datatype SpecFields = SpecFields(beds: string, livingRooms: string, bathrooms: string, area: string)

  /** All four fields start empty. */
  const NoSpecs := SpecFields("", "", "", "")

  function Get(f: SpecFields, fld: Field): string
  {
    match fld
    case Beds => f.beds
    case LivingRooms => f.livingRooms
    case Bathrooms => f.bathrooms
    case Area => f.area
  }

  function Set(f: SpecFields, fld: Field, v: string): (r: SpecFields)
    ensures Get(r, fld) == v
    ensures forall other :: other != fld ==> Get(r, other) == Get(f, other)
  {
    match fld
    case Beds => f.(beds := v)
    case LivingRooms => f.(livingRooms := v)
    case Bathrooms => f.(bathrooms := v)
    case Area => f.(area := v)
  }

  function ApplySpec(f: SpecFields, sp: Spec): SpecFields
  {
    match SpecAssignment(sp)
    case None => f
    case Some(a) => Set(f, a.field, a.value)
  }

  /** The loop over the spec elements, in document order. */
  function ApplySpecs(f: SpecFields, specs: seq<Spec>): SpecFields
  {
    if specs == [] then f
    else ApplySpec(ApplySpecs(f, specs[..|specs| - 1]), specs[|specs| - 1])
  }

  /** A field no spec element assigns keeps its starting value. */
  lemma {:induction false} UnassignedFieldKept(f: SpecFields, specs: seq<Spec>, fld: Field)
    requires forall k :: 0 <= k < |specs| ==> !Assigns(specs[k], fld)
    ensures Get(ApplySpecs(f, specs), fld) == Get(f, fld)
  {
    if specs != [] {
      UnassignedFieldKept(f, specs[..|specs| - 1], fld);
      assert !Assigns(specs[|specs| - 1], fld);
    }
  }

  /** A field takes the value of the last spec element that assigns it. */
  lemma {:induction false} LastAssignmentWins(f: SpecFields, specs: seq<Spec>, fld: Field, k: int)
    requires 0 <= k < |specs| && Assigns(specs[k], fld)
    requires forall k' :: k < k' < |specs| ==> !Assigns(specs[k'], fld)
    ensures Get(ApplySpecs(f, specs), fld) == SpecAssignment(specs[k]).value.value
  {
    var n := |specs| - 1;
    if k < n {
      LastAssignmentWins(f, specs[..n], fld, k);
      assert !Assigns(specs[n], fld);
    }
  }

  /** The area field only ever holds "" or a numeral. */
  lemma {:induction false} AreaIsNumeralOrEmpty(specs: seq<Spec>)
    ensures var a := Get(ApplySpecs(NoSpecs, specs), Area); a == "" || IsNumeral(a)
  {
    if specs != [] {
      AreaIsNumeralOrEmpty(specs[..|specs| - 1]);
    }
  }

  // ---------------------------------------------------------------------
  // Cards

  /** The price paragraph's text cut at the first '/', then stripped: the
      text before the first '/' with only whitespace removed around it. */
  function ExtractPrice(text: string): (r: string)
    ensures '/' !in r
    ensures Trimmed(r)
    ensures StrippedAt(Head(text, '/'), r, StripOffset(Head(text, '/')))
    ensures '/' !in Strip(text) ==> r == Strip(text)
  {
    var head := Split(text, '/')[0];
    SplitFirst(text, '/');
    StripKeepsNonSpace(head, '/');
    StripKeepsNonSpace(text, '/');
    Strip(head)
  }

  /** A monthly price loses its period; a price without one is kept. */
  lemma ExtractPriceExamples()
    ensures ExtractPrice("3,500 SAR/month") == "3,500 SAR"
    ensures ExtractPrice("3,500 SAR") == "3,500 SAR"
  {
    var s, t := "3,500 SAR/month", "3,500 SAR";
    IndexOfUnique(s, '/', 9);
    assert Head(s, '/') == t;
    assert StrippedAt(t, t, 0);
    StripUnique(t, t, 0);
    IndexOfUnique(t, '/', 9);
    assert Head(t, '/') == t;
  }

  /** Cutting the price a second time changes nothing. */
  lemma ExtractPriceIdempotent(text: string)
    ensures ExtractPrice(ExtractPrice(text)) == ExtractPrice(text)
  {
    var r := ExtractPrice(text);
    assert StrippedAt(r, r, 0);
    StripUnique(r, r, 0);
  }

  /** The three-field gate: a content block with a title, a price and a
      specs container. */
  predicate Complete(card: Card)
  {
    && card.content.Some?
    && card.content.value.title.Some?
    && card.content.value.price.Some?
    && card.content.value.specs.Some?
  }

  /** One card's record, or `None` when the gate drops it. */
  function ParseCard(card: Card): (r: Option<Record>)
    ensures r.Some? <==> Complete(card)
  {
    if !Complete(card) then None
    else
      var c := card.content.value;
      var f := ApplySpecs(NoSpecs, c.specs.value);
      Some(Record(
        c.title.value,
        ExtractPrice(c.price.value),
        f.beds,
        f.livingRooms,
        f.bathrooms,
        f.area,
        card.description.GetOr("")))
  }

  /** What a kept card's record holds: the title as found, the cut price,
      the four fields as the spec loop leaves them (the area being empty or
      a numeral), and the description or "". */
  lemma ParsedRecord(card: Card)
    requires Complete(card)
    ensures var r, f := ParseCard(card).value, ApplySpecs(NoSpecs, card.content.value.specs.value);
      && r.title == card.content.value.title.value
      && r.price == ExtractPrice(card.content.value.price.value)
      && '/' !in r.price && Trimmed(r.price)
      && r.beds == Get(f, Beds) && r.livingRooms == Get(f, LivingRooms)
      && r.bathrooms == Get(f, Bathrooms) && r.area == Get(f, Area)
      && (r.area == "" || IsNumeral(r.area))
      && r.description == card.description.GetOr("")
  {
    AreaIsNumeralOrEmpty(card.content.value.specs.value);
  }

  /** `parse_soup`: the records of the cards that pass the gate, in
      document order. */
  function ParseSoup(cards: seq<Card>): (r: seq<Record>)
    ensures |r| <= |cards|
  {
    FilterMap(cards, ParseCard)
  }

  /** No card is dropped exactly when every card passes the gate. */
  lemma NothingDroppedIffAllComplete(cards: seq<Card>)
    ensures |ParseSoup(cards)| == |cards| <==> forall k :: 0 <= k < |cards| ==> Complete(cards[k])
  {
    FilterMapKeepsAll(cards, ParseCard);
  }

  /** Every record is the record of some card of the page. */
  lemma RecordsComeFromCards(cards: seq<Card>, k: int)
    requires 0 <= k < |ParseSoup(cards)|
    ensures exists j :: 0 <= j < |cards| && ParseCard(cards[j]) == Some(ParseSoup(cards)[k])
  {
    FilterMapSource(cards, ParseCard, k);
  }

  /** Parsing distributes over the card list: each card is handled on its own. */
  lemma ParseSoupConcat(a: seq<Card>, b: seq<Card>)
    ensures ParseSoup(a + b) == ParseSoup(a) + ParseSoup(b)
  {
    FilterMapConcat(a, b, ParseCard);
  }

  /** A card that fails the gate is dropped and nothing else changes. */
  lemma IncompleteCardSkipped(a: seq<Card>, card: Card, b: seq<Card>)
    requires !Complete(card)
    ensures ParseSoup(a + [card] + b) == ParseSoup(a) + ParseSoup(b)
  {
    ParseSoupConcat(a + [card], b);
    ParseSoupConcat(a, [card]);
    assert ParseSoup([card]) == [] by {
      assert [card][..0] == [];
    }
  }

  /** A card that passes the gate contributes its record at its own position. */
  lemma CompleteCardKept(a: seq<Card>, card: Card, b: seq<Card>)
    requires Complete(card)
    ensures ParseSoup(a + [card] + b) == ParseSoup(a) + [ParseCard(card).value] + ParseSoup(b)
  {
    ParseSoupConcat(a + [card], b);
    ParseSoupConcat(a, [card]);
    assert ParseSoup([card]) == [ParseCard(card).value] by {
      assert [card][..0] == [];
    }
  }
}
