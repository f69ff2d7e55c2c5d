/**
 * The attribute extractor: turns a free-text vehicle description into an
 * optional make, model, badge, fuel type, transmission type and drive type,
 * using small fixed vocabularies.
 */
module Parser {
  import opened Wrappers
  import opened Text

  // ---------------------------------------------------------------------
  // Normalization tables
  // ---------------------------------------------------------------------

  /** Make aliases and the canonical make each stands for. */
  const MakeMap: map<string, string> := map["vw" := "volkswagen"]
  /** Makes recognized as they are. */
  const KnownMakes: set<string> := {"volkswagen", "toyota"}
  /** Every token that names a make. */
  const MakeTokens: set<string> := MakeMap.Keys + KnownMakes

  const Models: set<string> := {"golf", "amarok", "tiguan", "rav4", "camry", "kluger", "86"}

  const FuelMap: map<string, string> := map["hybrid" := "hybrid-petrol"]
  const FuelTokens: set<string> := {"petrol", "diesel", "hybrid"}

  const Transmissions: set<string> := {"automatic", "manual"}

  /** Drive-type aliases and their canonical display form. */
  const DriveMap: map<string, string> := map[
    "4x4" := "Four Wheel Drive",
    "4wd" := "Four Wheel Drive",
    "fwd" := "Front Wheel Drive",
    "rwd" := "Rear Wheel Drive"]

  /** The tokens at which a badge ends. */
  const BadgeBoundaries: set<string> := {"petrol", "diesel", "automatic", "manual"} + DriveMap.Keys

  /** Phrases that start trailing text irrelevant to the vehicle. */
  const NoiseMarkers: seq<string> :=
    [" with ", " engine swap", " swap engine", " swap ", " for sale", " owned", " kms"]

  /** Every token some extractor recognizes. */
  const Vocabulary: set<string> := MakeTokens + Models + FuelTokens + Transmissions + DriveMap.Keys

  /** The record the extractor returns; every field may be absent. */
  datatype Attributes = Attributes(
    make: Option<string>,
    model: Option<string>,
    badge: Option<string>,
    fuelType: Option<string>,
    transmissionType: Option<string>,
    driveType: Option<string>)

  const NoAttributes := Attributes(None, None, None, None, None, None)

  // ---------------------------------------------------------------------
  // Noise truncation
  // ---------------------------------------------------------------------

  /** One of `ms` is a prefix of `s`. */
  predicate StartsWithAny(s: string, ms: seq<string>) {
    ms != [] && (ms[0] <= s || StartsWithAny(s, ms[1..]))
  }

  /** Some noise marker starts at the beginning of `s`. */
  predicate StartsWithMarker(s: string) {
    StartsWithAny(s, NoiseMarkers)
  }

  /** Some noise marker occurs in `s` at position `i`. */
  predicate MarkerAt(s: string, i: nat)
    requires i <= |s|
  {
    StartsWithMarker(s[i..])
  }

  /**
   * The earliest position at or after `from` where a noise marker occurs, or
   * the length of `s` when there is none.
   */
  function NoiseStart(s: string, from: nat): (p: nat)
    requires from <= |s|
    ensures from <= p <= |s|
    decreases |s| - from
  {
    if from == |s| then from
    else if MarkerAt(s, from) then from
    else NoiseStart(s, from + 1)
  }

  /** No marker occurs before the position `NoiseStart` finds, and one occurs there unless it is the end. */
  lemma {:induction false} NoiseStartIsEarliest(s: string, from: nat)
    requires from <= |s|
    ensures forall i :: from <= i < NoiseStart(s, from) ==> !MarkerAt(s, i)
    ensures NoiseStart(s, from) < |s| ==> MarkerAt(s, NoiseStart(s, from))
    decreases |s| - from
  {
    if from < |s| && !MarkerAt(s, from) {
      NoiseStartIsEarliest(s, from + 1);
    }
  }

  /**
   * `s.split(markers)[0]`: the text before the earliest position where any
   * noise marker occurs, or all of `s`.
   */
  function CutNoise(s: string): (r: string)
    ensures r <= s
  {
    s[..NoiseStart(s, 0)]
  }

  /** The cut text holds no marker, and a marker starts right after it unless nothing was cut. */
  lemma CutNoiseIsEarliest(s: string)
    ensures forall i :: 0 <= i < |CutNoise(s)| ==> !MarkerAt(s, i)
    ensures |CutNoise(s)| < |s| ==> MarkerAt(s, |CutNoise(s)|)
  {
    NoiseStartIsEarliest(s, 0);
  }

  /** Text without any marker in it is left whole. */
  lemma CutNoiseKeepsClean(s: string)
    requires forall i :: 0 <= i < |s| ==> !MarkerAt(s, i)
    ensures CutNoise(s) == s
  {
    NoiseStartIsEarliest(s, 0);
  }

  /** The cut text is exactly the prefix before the earliest marker at `p`. */
  lemma CutNoiseAtEarliest(s: string, p: nat)
    requires p <= |s| && MarkerAt(s, p)
    requires forall i :: 0 <= i < p ==> !MarkerAt(s, i)
    ensures CutNoise(s) == s[..p]
  {
    NoiseStartIsEarliest(s, 0);
  }

  // ---------------------------------------------------------------------
  // Token search
  // ---------------------------------------------------------------------

  /**
   * `ts.findIndex((t, i) => i >= from && vocab.has(t))`: the leftmost position
   * at or after `from` whose token is in `vocab`.
   */
  function FindFirst(ts: seq<string>, vocab: set<string>, from: nat): (r: Option<nat>)
    ensures r.Some? ==> from <= r.value < |ts| && ts[r.value] in vocab
    ensures r.Some? ==> forall j :: from <= j < r.value ==> ts[j] !in vocab
    ensures r.None? ==> forall j :: from <= j < |ts| ==> ts[j] !in vocab
    decreases |ts| - from
  {
    if from >= |ts| then None
    else if ts[from] in vocab then Some(from)
    else FindFirst(ts, vocab, from + 1)
  }

  /** `ts.find(t => vocab.has(t))`: the leftmost token in `vocab`. */
  function FindToken(ts: seq<string>, vocab: set<string>): (r: Option<string>)
    ensures r.Some? ==> r.value in vocab && r.value in ts
    ensures r.Some? ==> exists i :: 0 <= i < |ts| && ts[i] == r.value &&
                                    forall j :: 0 <= j < i ==> ts[j] !in vocab
    ensures r.None? ==> forall j :: 0 <= j < |ts| ==> ts[j] !in vocab
  {
    match FindFirst(ts, vocab, 0)
    case Some(i) => Some(ts[i])
    case None => None
  }

  /** `ts.indexOf(t)` for a token known to occur in `ts`. */
  function IndexOf(ts: seq<string>, t: string): (i: nat)
    requires t in ts
    ensures i < |ts| && ts[i] == t
    ensures forall j :: 0 <= j < i ==> ts[j] != t
  {
    FindFirst(ts, {t}, 0).value
  }

  // ---------------------------------------------------------------------
  // Field extractors
  // ---------------------------------------------------------------------

  /** The tokens of a description: lower-cased, cut at the first noise marker, split on whitespace runs. */
  function Tokens(raw: string): seq<string> {
    Split(CutNoise(Lower(raw)))
  }

  function ExtractMake(ts: seq<string>): Option<string> {
    match FindToken(ts, MakeTokens)
    case Some(t) => Some(if t in MakeMap then MakeMap[t] else t)
    case None => None
  }

  function ExtractModel(ts: seq<string>): Option<string> {
    FindToken(ts, Models)
  }

  /** A badge span with separators turned into spaces, joined and trimmed. */
  function BadgeText(span: seq<string>): (b: string)
    ensures b == [] || (!IsSpace(b[0]) && !IsSpace(b[|b| - 1]))
    ensures forall i :: 0 <= i < |b| ==> b[i] != '-' && b[i] != '/'
  {
    var pieces := seq(|span|, k requires 0 <= k < |span| => ReplaceSeparators(span[k]));
    var joined := Join(pieces);
    JoinAvoidsSeparators(pieces);
    TrimIsInfix(joined);
    Trim(joined)
  }

  /** Tokens without hyphens or slashes are joined with single spaces and trimmed. */
  lemma BadgeTextOfPlainTokens(span: seq<string>)
    requires forall k, i :: 0 <= k < |span| && 0 <= i < |span[k]| ==> span[k][i] != '-' && span[k][i] != '/'
    ensures BadgeText(span) == Trim(Join(span))
  {
    var pieces := seq(|span|, k requires 0 <= k < |span| => ReplaceSeparators(span[k]));
    forall k | 0 <= k < |span| ensures pieces[k] == span[k] {
      ReplaceSeparatorsKeeps(span[k]);
    }
    assert pieces == span;
  }

  /** Joining pieces without hyphens or slashes adds only spaces. */
  lemma {:induction false} JoinAvoidsSeparators(ps: seq<string>)
    requires forall k, i :: 0 <= k < |ps| && 0 <= i < |ps[k]| ==> ps[k][i] != '-' && ps[k][i] != '/'
    ensures forall i :: 0 <= i < |Join(ps)| ==> Join(ps)[i] != '-' && Join(ps)[i] != '/'
  {
    if |ps| > 1 {
      JoinAvoidsSeparators(ps[1..]);
      assert Join(ps) == ps[0] + " " + Join(ps[1..]);
    }
  }

  /** JavaScript truthiness of the badge text: the empty string counts as absent. */
  function NonEmpty(s: string): (r: Option<string>)
    ensures r.Some? <==> s != []
    ensures r.Some? ==> r.value == s
  {
    if s == [] then None else Some(s)
  }

  /**
   * The badge: the tokens strictly after the first occurrence of `model` and
   * strictly before the first later boundary token (or the end).
   */
  function ExtractBadge(ts: seq<string>, model: string): (r: Option<string>)
    requires model in ts
    ensures r.Some? ==> r.value != []
    ensures r.Some? ==> !IsSpace(r.value[0]) && !IsSpace(r.value[|r.value| - 1])
    ensures r.Some? ==> forall i :: 0 <= i < |r.value| ==> r.value[i] != '-' && r.value[i] != '/'
  {
    var idx := IndexOf(ts, model);
    NonEmpty(BadgeText(ts[idx + 1..BadgeEnd(ts, idx)]))
  }

  /** The position of the first boundary token after `idx`, or the end of `ts`. */
  function BadgeEnd(ts: seq<string>, idx: nat): (e: nat)
    requires idx < |ts|
    ensures idx < e <= |ts|
    ensures forall j :: idx < j < e ==> ts[j] !in BadgeBoundaries
    ensures e == |ts| || ts[e] in BadgeBoundaries
  {
    match FindFirst(ts, BadgeBoundaries, idx + 1)
    case Some(e) => e
    case None => |ts|
  }

  function ExtractFuel(ts: seq<string>): Option<string> {
    match FindToken(ts, FuelTokens)
    case Some(t) => Some(if t in FuelMap then FuelMap[t] else t)
    case None => None
  }

  function ExtractTransmission(ts: seq<string>): Option<string> {
    FindToken(ts, Transmissions)
  }

  function ExtractDrive(ts: seq<string>): Option<string> {
    match FindToken(ts, DriveMap.Keys)
    case Some(t) => Some(DriveMap[t])
    case None => None
  }

  /** The attributes read off a list of tokens. */
  function ParseTokens(ts: seq<string>): Attributes {
    var model := ExtractModel(ts);
    Attributes(
      ExtractMake(ts),
      model,
      if model.Some? then ExtractBadge(ts, model.value) else None,
      ExtractFuel(ts),
      ExtractTransmission(ts),
      ExtractDrive(ts))
  }

  /** `parseDescription`: the structured attributes of a free-text description. */
  function ParseDescription(raw: string): Attributes {
    ParseTokens(Tokens(raw))
  }

  // ---------------------------------------------------------------------
  // Properties of the extractor
  // ---------------------------------------------------------------------

  /** Only the lower-cased text matters. */
  lemma ParseIgnoresCase(raw: string)
    ensures ParseDescription(raw) == ParseDescription(Lower(raw))
  {
    LowerIdempotent(raw);
  }

  /**
   * Nothing from the earliest noise marker on has any influence: parsing only
   * the text before it gives the same attributes.
   */
  lemma ParseIgnoresNoise(raw: string)
    ensures |CutNoise(Lower(raw))| <= |raw|
    ensures ParseDescription(raw) == ParseDescription(raw[..|CutNoise(Lower(raw))|])
  {
    TokensIgnoreNoise(raw);
  }

  /** The tokens of a description are the tokens of its text before the earliest marker. */
  lemma TokensIgnoreNoise(raw: string)
    ensures |CutNoise(Lower(raw))| <= |raw|
    ensures Tokens(raw) == Tokens(raw[..|CutNoise(Lower(raw))|])
  {
    var p := |CutNoise(Lower(raw))|;
    CutNoiseIsEarliest(Lower(raw));
    CleanPrefixLowered(raw, p);
  }

  /** The lower-cased text before the earliest marker is kept whole by the cut. */
  lemma CleanPrefixLowered(raw: string, p: nat)
    requires p <= |raw|
    requires forall i :: 0 <= i < p ==> !MarkerAt(Lower(raw), i)
    ensures CutNoise(Lower(raw[..p])) == Lower(raw)[..p]
  {
    LowerPrefix(raw, p);
    CleanPrefix(Lower(raw), p);
  }

  /** The text before the earliest marker holds no marker of its own. */
  lemma CleanPrefix(s: string, p: nat)
    requires p <= |s|
    requires forall i :: 0 <= i < p ==> !MarkerAt(s, i)
    ensures CutNoise(s[..p]) == s[..p]
  {
    var r := s[..p];
    forall i | 0 <= i < |r|
      ensures !MarkerAt(r, i)
    {
      MarkerInPrefix(r, s, i);
    }
    CutNoiseKeepsClean(r);
  }

  /** A marker found in a prefix of `s` is found in `s` too. */
  lemma MarkerInPrefix(r: string, s: string, i: nat)
    requires r <= s && i <= |r|
    ensures MarkerAt(r, i) ==> MarkerAt(s, i)
  {
    assert r[i..] <= s[i..];
    StartsWithAnyExtends(r[i..], s[i..], NoiseMarkers);
  }

  lemma {:induction false} StartsWithAnyExtends(a: string, b: string, ms: seq<string>)
    requires a <= b
    ensures StartsWithAny(a, ms) ==> StartsWithAny(b, ms)
  {
    if ms != [] {
      StartsWithAnyExtends(a, b, ms[1..]);
    }
  }

  /** The make comes from the leftmost make token, and "vw" stands for "volkswagen". */
  lemma MakeIsLeftmost(raw: string, i: nat)
    requires i < |Tokens(raw)| && Tokens(raw)[i] in MakeTokens
    requires forall j :: 0 <= j < i ==> Tokens(raw)[j] !in MakeTokens
    ensures ParseDescription(raw).make ==
            Some(if Tokens(raw)[i] == "vw" then "volkswagen" else Tokens(raw)[i])
  {
    var ts := Tokens(raw);
    assert FindFirst(ts, MakeTokens, 0) == Some(i);
  }

  /** The make is absent exactly when no token names a make; it is never anything but these two. */
  lemma MakeValues(raw: string)
    ensures ParseDescription(raw).make.None? <==>
            forall j :: 0 <= j < |Tokens(raw)| ==> Tokens(raw)[j] !in MakeTokens
    ensures ParseDescription(raw).make in {None, Some("volkswagen"), Some("toyota")}
  {
  }

  /** The model is the leftmost model token. */
  lemma ModelIsLeftmost(raw: string, i: nat)
    requires i < |Tokens(raw)| && Tokens(raw)[i] in Models
    requires forall j :: 0 <= j < i ==> Tokens(raw)[j] !in Models
    ensures ParseDescription(raw).model == Some(Tokens(raw)[i])
  {
    assert FindFirst(Tokens(raw), Models, 0) == Some(i);
  }

  /** The model is absent exactly when no token is a known model. */
  lemma ModelValues(raw: string)
    ensures ParseDescription(raw).model.None? <==>
            forall j :: 0 <= j < |Tokens(raw)| ==> Tokens(raw)[j] !in Models
    ensures ParseDescription(raw).model.Some? ==> ParseDescription(raw).model.value in Models
  {
  }

  /**
   * No badge without a model; a badge is never empty, has no whitespace at
   * either end and holds no hyphen or slash.
   */
  lemma BadgeShape(raw: string)
    ensures ParseDescription(raw).model.None? ==> ParseDescription(raw).badge.None?
    ensures ParseDescription(raw).badge.Some? ==>
              var b := ParseDescription(raw).badge.value;
              b != [] && !IsSpace(b[0]) && !IsSpace(b[|b| - 1]) &&
              forall i :: 0 <= i < |b| ==> b[i] != '-' && b[i] != '/'
  {
  }

  /**
   * The badge is made from exactly the tokens strictly between the first model
   * token, at `i`, and the first boundary token after it, at `e` (or the end).
   */
  lemma BadgeIsSpan(raw: string, i: nat, e: nat)
    requires i < e <= |Tokens(raw)|
    requires Tokens(raw)[i] in Models
    requires forall j :: 0 <= j < i ==> Tokens(raw)[j] !in Models
    requires forall j :: i < j < e ==> Tokens(raw)[j] !in BadgeBoundaries
    requires e == |Tokens(raw)| || Tokens(raw)[e] in BadgeBoundaries
    ensures ParseDescription(raw).badge == NonEmpty(BadgeText(Tokens(raw)[i + 1..e]))
  {
    var ts := Tokens(raw);
    ModelIsLeftmost(raw, i);
    ExtractBadgeIsSpan(ts, i, e);
  }

  lemma ExtractBadgeIsSpan(ts: seq<string>, i: nat, e: nat)
    requires i < e <= |ts| && ts[i] in Models
    requires forall j :: 0 <= j < i ==> ts[j] !in Models
    requires forall j :: i < j < e ==> ts[j] !in BadgeBoundaries
    requires e == |ts| || ts[e] in BadgeBoundaries
    ensures ExtractBadge(ts, ts[i]) == NonEmpty(BadgeText(ts[i + 1..e]))
  {
    IndexOfLeftmost(ts, i, Models);
    BadgeEndIsFirstBoundary(ts, i, e);
  }

  /** The first occurrence of the leftmost token from `vocab` is where it was found. */
  lemma IndexOfLeftmost(ts: seq<string>, i: nat, vocab: set<string>)
    requires i < |ts| && ts[i] in vocab
    requires forall j :: 0 <= j < i ==> ts[j] !in vocab
    ensures IndexOf(ts, ts[i]) == i
  {
  }

  lemma BadgeEndIsFirstBoundary(ts: seq<string>, i: nat, e: nat)
    requires i < e <= |ts|
    requires forall j :: i < j < e ==> ts[j] !in BadgeBoundaries
    requires e == |ts| || ts[e] in BadgeBoundaries
    ensures BadgeEnd(ts, i) == e
  {
  }

  /** "hybrid" and the make tokens never end a badge. */
  lemma BoundaryTokens()
    ensures "hybrid" !in BadgeBoundaries
    ensures MakeTokens !! BadgeBoundaries
    ensures BadgeBoundaries == {"petrol", "diesel", "automatic", "manual", "4x4", "4wd", "fwd", "rwd"}
  {
  }

  /** The fuel type comes from the leftmost fuel token, "hybrid" standing for "hybrid-petrol". */
  lemma FuelIsLeftmost(raw: string, i: nat)
    requires i < |Tokens(raw)| && Tokens(raw)[i] in FuelTokens
    requires forall j :: 0 <= j < i ==> Tokens(raw)[j] !in FuelTokens
    ensures ParseDescription(raw).fuelType ==
            Some(if Tokens(raw)[i] == "hybrid" then "hybrid-petrol" else Tokens(raw)[i])
  {
    assert FindFirst(Tokens(raw), FuelTokens, 0) == Some(i);
  }

  lemma FuelValues(raw: string)
    ensures ParseDescription(raw).fuelType.None? <==>
            forall j :: 0 <= j < |Tokens(raw)| ==> Tokens(raw)[j] !in FuelTokens
    ensures ParseDescription(raw).fuelType in
            {None, Some("petrol"), Some("diesel"), Some("hybrid-petrol")}
  {
  }

  /** The transmission type is the leftmost transmission token. */
  lemma TransmissionIsLeftmost(raw: string, i: nat)
    requires i < |Tokens(raw)| && Tokens(raw)[i] in Transmissions
    requires forall j :: 0 <= j < i ==> Tokens(raw)[j] !in Transmissions
    ensures ParseDescription(raw).transmissionType == Some(Tokens(raw)[i])
  {
    assert FindFirst(Tokens(raw), Transmissions, 0) == Some(i);
  }

  lemma TransmissionValues(raw: string)
    ensures ParseDescription(raw).transmissionType.None? <==>
            forall j :: 0 <= j < |Tokens(raw)| ==> Tokens(raw)[j] !in Transmissions
    ensures ParseDescription(raw).transmissionType in {None, Some("automatic"), Some("manual")}
  {
  }

  /** The drive type is the display form of the leftmost drive alias. */
  lemma DriveIsLeftmost(raw: string, i: nat)
    requires i < |Tokens(raw)| && Tokens(raw)[i] in DriveMap
    requires forall j :: 0 <= j < i ==> Tokens(raw)[j] !in DriveMap
    ensures ParseDescription(raw).driveType == Some(DriveMap[Tokens(raw)[i]])
  {
    assert FindFirst(Tokens(raw), DriveMap.Keys, 0) == Some(i);
  }

  lemma DriveValues(raw: string)
    ensures ParseDescription(raw).driveType.None? <==>
            forall j :: 0 <= j < |Tokens(raw)| ==> Tokens(raw)[j] !in DriveMap
    ensures ParseDescription(raw).driveType in
            {None, Some("Four Wheel Drive"), Some("Front Wheel Drive"), Some("Rear Wheel Drive")}
  {
  }

  /** A description with no recognized token yields no attribute at all. */
  lemma NoVocabularyNoAttributes(raw: string)
    requires forall j :: 0 <= j < |Tokens(raw)| ==> Tokens(raw)[j] !in Vocabulary
    ensures ParseDescription(raw) == NoAttributes
  {
  }
}
