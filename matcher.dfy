/**
 * The scoring matcher: compares parsed attributes with every catalog vehicle,
 * keeps the best-scoring one (ties go to the vehicle with more listings, then
 * to the earlier one) and reports its id with the score as confidence.
 */
module Matcher {
  import opened Wrappers
  import opened Text
  import opened Parser

  /** A catalog entry, as held in the in-memory vehicle cache. */
  datatype Vehicle = Vehicle(
    id: string,
    make: string,
    model: string,
    badge: string,
    fuelType: string,
    transmissionType: string,
    driveType: string)

  /** What the matcher reports: the chosen vehicle's id (absent for `null`) and a confidence in [0,10]. */
  datatype MatchResult = MatchResult(vehicleId: Option<string>, confidence: int)

  // ---------------------------------------------------------------------
  // Weights
  // ---------------------------------------------------------------------

  /** The six scored attributes. */
  datatype Field = Make | Model | Badge | Fuel | Transmission | Drive

  const Fields: seq<Field> := [Make, Model, Badge, Fuel, Transmission, Drive]

  /** The `WEIGHTS` table. */
  function Weight(f: Field): nat {
    match f
    case Make => 2
    case Model => 2
    case Badge => 3
    case Fuel => 1
    case Transmission => 1
    case Drive => 1
  }

  function WeightSum(fs: seq<Field>): nat {
    if fs == [] then 0 else Weight(fs[0]) + WeightSum(fs[1..])
  }

  /** Every field is listed, once: there are six of them. */
  lemma FieldsListed()
    ensures forall f: Field :: f in Fields
    ensures forall i, j :: 0 <= i < j < |Fields| ==> Fields[i] != Fields[j]
  {
    forall f: Field ensures f in Fields {
      var k := match f
        case Make => 0 case Model => 1 case Badge => 2
        case Fuel => 3 case Transmission => 4 case Drive => 5;
      assert Fields[k] == f;
    }
  }

  /** The weights of all fields sum to 10. */
  lemma WeightsSumToTen()
    ensures WeightSum(Fields) == 10
  {
    var fs := [Drive];
    assert WeightSum(fs) == 1;
    fs := [Transmission] + fs;
    assert WeightSum(fs) == 2;
    fs := [Fuel] + fs;
    assert WeightSum(fs) == 1 + WeightSum(fs[1..]);
    fs := [Badge] + fs;
    assert WeightSum(fs) == 3 + WeightSum(fs[1..]);
    fs := [Model] + fs;
    assert WeightSum(fs) == 2 + WeightSum(fs[1..]);
    fs := [Make] + fs;
    assert WeightSum(fs) == 2 + WeightSum(fs[1..]);
    assert fs == Fields;
  }

  // ---------------------------------------------------------------------
  // Field matching
  // ---------------------------------------------------------------------

  /** JavaScript truthiness of an optional string: present and not empty. */
  predicate Present(o: Option<string>) {
    o.Some? && o.value != []
  }

  /** A character the regular-expression class `\w` accepts. */
  predicate IsWordChar(c: char) {
    'a' <= c <= 'z' || 'A' <= c <= 'Z' || '0' <= c <= '9' || c == '_'
  }

  /** The character at `k` is a word character; positions outside `s` are not. */
  predicate WordAt(s: string, k: int) {
    0 <= k < |s| && IsWordChar(s[k])
  }

  /** `\b` holds at position `k`: exactly one of the characters on either side is a word character. */
  predicate Boundary(s: string, k: int) {
    WordAt(s, k - 1) != WordAt(s, k)
  }

  /** `p` occurs in `s` at position `i` with a word boundary on each side. */
  predicate PhraseAt(s: string, p: string, i: nat) {
    i + |p| <= |s| && s[i..i + |p|] == p && Boundary(s, i) && Boundary(s, i + |p|)
  }

  /** `new RegExp('\\b' + p + '\\b').test(s)`, reading `p` as a literal phrase. */
  predicate PhraseMatches(p: string, s: string) {
    exists i: nat | i <= |s| :: PhraseAt(s, p, i)
  }

  /** A phrase beginning and ending with word characters is found wherever non-word text surrounds it. */
  lemma PhraseInText(x: string, p: string, y: string)
    requires p != [] && IsWordChar(p[0]) && IsWordChar(p[|p| - 1])
    requires x == [] || !IsWordChar(x[|x| - 1])
    requires y == [] || !IsWordChar(y[0])
    ensures PhraseMatches(p, x + p + y)
  {
    var s := x + p + y;
    assert s[|x|..|x| + |p|] == p;
    assert s[|x|] == p[0];
    assert s[|x| + |p| - 1] == p[|p| - 1];
    assert |x| > 0 ==> s[|x| - 1] == x[|x| - 1];
    assert |y| > 0 ==> s[|x| + |p|] == y[0];
    assert PhraseAt(s, p, |x|);
  }

  /** A phrase that runs on into a word character is not matched there: `\b` is not a substring test. */
  lemma PhraseNeedsBoundary(p: string, s: string, i: nat)
    requires i + |p| < |s| && s[i..i + |p|] == p && p != []
    requires IsWordChar(p[|p| - 1]) && IsWordChar(s[i + |p|])
    ensures !PhraseAt(s, p, i)
  {
    assert s[i + |p| - 1] == p[|p| - 1];
  }

  /** Whether the vehicle agrees with the attributes on field `f`. */
  predicate FieldMatches(attrs: Attributes, v: Vehicle, f: Field) {
    match f
    case Make => Present(attrs.make) && Lower(v.make) == attrs.make.value
    case Model => Present(attrs.model) && Lower(v.model) == attrs.model.value
    case Badge => Present(attrs.badge) && PhraseMatches(Lower(attrs.badge.value), Lower(v.badge))
    case Fuel => Present(attrs.fuelType) && Lower(v.fuelType) == attrs.fuelType.value
    case Transmission =>
      Present(attrs.transmissionType) && Lower(v.transmissionType) == attrs.transmissionType.value
    case Drive => Present(attrs.driveType) && v.driveType == attrs.driveType.value
  }

  /** The weight `f` contributes to a score: all of it when the field matches, nothing otherwise. */
  function Points(attrs: Attributes, v: Vehicle, f: Field): (n: nat)
    ensures n == 0 || n == Weight(f)
    ensures n > 0 <==> FieldMatches(attrs, v, f)
  {
    if FieldMatches(attrs, v, f) then Weight(f) else 0
  }

  /** The summed points of the fields in `fs`. */
  function PointsSum(attrs: Attributes, v: Vehicle, fs: seq<Field>): nat {
    if fs == [] then 0 else Points(attrs, v, fs[0]) + PointsSum(attrs, v, fs[1..])
  }

  /** The points of a list of fields never exceed their weights, and reach them only when all match. */
  lemma {:induction false} PointsSumBounds(attrs: Attributes, v: Vehicle, fs: seq<Field>)
    ensures PointsSum(attrs, v, fs) <= WeightSum(fs)
    ensures PointsSum(attrs, v, fs) == WeightSum(fs) <==>
            forall k :: 0 <= k < |fs| ==> FieldMatches(attrs, v, fs[k])
    ensures PointsSum(attrs, v, fs) == 0 <==>
            forall k :: 0 <= k < |fs| ==> !FieldMatches(attrs, v, fs[k])
  {
    if fs != [] {
      PointsSumBounds(attrs, v, fs[1..]);
      assert forall k :: 1 <= k < |fs| ==> fs[k] == fs[1..][k - 1];
    }
  }

  /** The score of one vehicle: the summed weight of the fields that match. */
  function Score(attrs: Attributes, v: Vehicle): (s: int)
    ensures 0 <= s <= 10
  {
    PointsSumBounds(attrs, v, Fields);
    WeightsSumToTen();
    PointsSum(attrs, v, Fields)
  }

  /** The score adds up, in the table's order, the weight of every field that matches. */
  lemma ScoreIsMatchedWeight(attrs: Attributes, v: Vehicle)
    ensures Score(attrs, v) == Points(attrs, v, Make) + Points(attrs, v, Model) + Points(attrs, v, Badge)
      + Points(attrs, v, Fuel) + Points(attrs, v, Transmission) + Points(attrs, v, Drive)
  {
    var fs := [Drive];
    assert PointsSum(attrs, v, fs) == Points(attrs, v, Drive);
    fs := [Transmission] + fs;
    assert PointsSum(attrs, v, fs) == Points(attrs, v, Transmission) + Points(attrs, v, Drive);
    fs := [Fuel] + fs;
    assert PointsSum(attrs, v, fs) == Points(attrs, v, Fuel) + PointsSum(attrs, v, fs[1..]);
    fs := [Badge] + fs;
    assert PointsSum(attrs, v, fs) == Points(attrs, v, Badge) + PointsSum(attrs, v, fs[1..]);
    fs := [Model] + fs;
    assert PointsSum(attrs, v, fs) == Points(attrs, v, Model) + PointsSum(attrs, v, fs[1..]);
    fs := [Make] + fs;
    assert PointsSum(attrs, v, fs) == Points(attrs, v, Make) + PointsSum(attrs, v, fs[1..]);
    assert fs == Fields;
  }

  /** A full score of 10 means every field matches, and the other way round. */
  lemma PerfectScore(attrs: Attributes, v: Vehicle)
    ensures Score(attrs, v) == 10 <==> forall f: Field :: FieldMatches(attrs, v, f)
  {
    ScoreIsMatchedWeight(attrs, v);
    WeightsSumToTen();
    FieldsListed();
    PointsSumBounds(attrs, v, Fields);
    if Score(attrs, v) == 10 {
      forall f: Field ensures FieldMatches(attrs, v, f) {
        var k :| 0 <= k < |Fields| && Fields[k] == f;
      }
    }
  }

  /** A score of 0 means no field matches, and the other way round. */
  lemma ZeroScore(attrs: Attributes, v: Vehicle)
    ensures Score(attrs, v) == 0 <==> forall f: Field :: !FieldMatches(attrs, v, f)
  {
    ScoreIsMatchedWeight(attrs, v);
    WeightsSumToTen();
    FieldsListed();
    PointsSumBounds(attrs, v, Fields);
    if Score(attrs, v) == 0 {
      forall f: Field ensures !FieldMatches(attrs, v, f) {
        var k :| 0 <= k < |Fields| && Fields[k] == f;
      }
    }
  }

  /** Absent attributes score nothing against any vehicle. */
  lemma NothingScoresZero(v: Vehicle)
    ensures Score(NoAttributes, v) == 0
  {
    ScoreIsMatchedWeight(NoAttributes, v);
  }

  // ---------------------------------------------------------------------
  // Choosing the best vehicle
  // ---------------------------------------------------------------------

  /** The number of listings of a vehicle; an id missing from the counts has none. */
  function ListingCount(counts: map<string, nat>, id: string): (n: nat)
    ensures id !in counts ==> n == 0
    ensures id in counts ==> n == counts[id]
  {
    if id in counts then counts[id] else 0
  }

  function ScoresOf(attrs: Attributes, catalog: seq<Vehicle>): (sc: seq<int>)
    ensures |sc| == |catalog|
  {
    seq(|catalog|, i requires 0 <= i < |catalog| => Score(attrs, catalog[i]))
  }

  function CountsOf(counts: map<string, nat>, catalog: seq<Vehicle>): (cn: seq<nat>)
    ensures |cn| == |catalog|
  {
    seq(|catalog|, i requires 0 <= i < |catalog| => ListingCount(counts, catalog[i].id))
  }

  /**
   * Among the first `n` entries, `w` has the highest score; among the entries
   * with that score it has the most listings; and every earlier entry with
   * that score has strictly fewer.
   */
  predicate IsWinner(sc: seq<int>, cn: seq<nat>, n: nat, w: nat)
    requires n <= |sc| && n <= |cn|
  {
    w < n &&
    (forall j :: 0 <= j < n ==> sc[j] <= sc[w]) &&
    (forall j :: 0 <= j < n && sc[j] == sc[w] ==> cn[j] <= cn[w]) &&
    (forall j :: 0 <= j < w && sc[j] == sc[w] ==> cn[j] < cn[w])
  }

  /** The entry the loop holds after the first `n` entries: it changes on a higher score, or an equal one with more listings. */
  function Leader(sc: seq<int>, cn: seq<nat>, n: nat): (w: nat)
    requires 0 < n <= |sc| && n <= |cn|
    ensures w < n
  {
    if n == 1 then 0
    else
      var w := Leader(sc, cn, n - 1);
      if sc[n - 1] > sc[w] then n - 1
      else if sc[n - 1] == sc[w] && cn[n - 1] > cn[w] then n - 1
      else w
  }

  /** The entry the loop holds is the winner. */
  lemma {:induction false} LeaderIsWinner(sc: seq<int>, cn: seq<nat>, n: nat)
    requires 0 < n <= |sc| && n <= |cn|
    ensures IsWinner(sc, cn, n, Leader(sc, cn, n))
  {
    if n > 1 {
      LeaderIsWinner(sc, cn, n - 1);
    }
  }

  /** There is at most one winner. */
  lemma WinnerIsUnique(sc: seq<int>, cn: seq<nat>, n: nat, a: nat, b: nat)
    requires n <= |sc| && n <= |cn|
    requires IsWinner(sc, cn, n, a) && IsWinner(sc, cn, n, b)
    ensures a == b
  {
    assert sc[a] == sc[b] && cn[a] == cn[b];
  }

  /** The score limited to the range [0,10]. */
  function Clamp(x: int): (y: int)
    ensures 0 <= y <= 10
    ensures 0 <= x <= 10 ==> y == x
    ensures x < 0 ==> y == 0
    ensures x > 10 ==> y == 10
  {
    if x < 0 then 0 else if x > 10 then 10 else x
  }

  /** The result the matcher is specified to give. */
  function BestMatch(attrs: Attributes, catalog: seq<Vehicle>, counts: map<string, nat>): MatchResult {
    if catalog == [] then MatchResult(None, 0)
    else
      var w := Leader(ScoresOf(attrs, catalog), CountsOf(counts, catalog), |catalog|);
      MatchResult(Some(catalog[w].id), Clamp(Score(attrs, catalog[w])))
  }

  /** The specified result names the unique winner of the whole catalog, with its score as confidence. */
  lemma BestMatchIsWinner(attrs: Attributes, catalog: seq<Vehicle>, counts: map<string, nat>)
    ensures catalog == [] <==> BestMatch(attrs, catalog, counts) == MatchResult(None, 0)
    ensures catalog != [] ==>
              exists w: nat ::
                IsWinner(ScoresOf(attrs, catalog), CountsOf(counts, catalog), |catalog|, w) &&
                BestMatch(attrs, catalog, counts) == MatchResult(Some(catalog[w].id), Score(attrs, catalog[w]))
  {
    if catalog != [] {
      var sc, cn := ScoresOf(attrs, catalog), CountsOf(counts, catalog);
      LeaderIsWinner(sc, cn, |catalog|);
    }
  }

  /** The vehicle's lower-cased make and model equal the parsed ones. */
  predicate OfMakeAndModel(attrs: Attributes, v: Vehicle)
    requires attrs.make.Some? && attrs.model.Some?
  {
    Lower(v.make) == attrs.make.value && Lower(v.model) == attrs.model.value
  }

  /**
   * The make-and-model pre-filter: the vehicles whose lower-cased make and
   * model equal the parsed ones, kept in catalog order.
   */
  function SameMakeAndModel(attrs: Attributes, catalog: seq<Vehicle>): seq<Vehicle>
    requires attrs.make.Some? && attrs.model.Some?
  {
    if catalog == [] then []
    else
      var v := catalog[0];
      var rest := SameMakeAndModel(attrs, catalog[1..]);
      if OfMakeAndModel(attrs, v) then [v] + rest else rest
  }

  /** The pre-filter keeps exactly the catalog vehicles of the parsed make and model. */
  lemma {:induction false} SameMakeAndModelMembers(attrs: Attributes, catalog: seq<Vehicle>)
    requires attrs.make.Some? && attrs.model.Some?
    ensures forall v :: v in SameMakeAndModel(attrs, catalog) <==> v in catalog && OfMakeAndModel(attrs, v)
  {
    if catalog != [] {
      SameMakeAndModelMembers(attrs, catalog[1..]);
      assert catalog == [catalog[0]] + catalog[1..];
    }
  }

  /**
   * The candidate list: the pre-filtered vehicles when both make and model
   * are present, falling back to the whole catalog when that list is empty.
   */
  function Candidates(attrs: Attributes, catalog: seq<Vehicle>): (c: seq<Vehicle>)
    ensures !(Present(attrs.make) && Present(attrs.model)) ==> c == catalog
    ensures Present(attrs.make) && Present(attrs.model) ==>
              ((exists v :: v in catalog && OfMakeAndModel(attrs, v)) ==>
                 forall v :: v in c <==> v in catalog && OfMakeAndModel(attrs, v))
    ensures Present(attrs.make) && Present(attrs.model) ==>
              ((forall v :: v in catalog ==> !OfMakeAndModel(attrs, v)) ==> c == catalog)
    ensures catalog != [] ==> c != []
    ensures forall v :: v in c ==> v in catalog
  {
    if Present(attrs.make) && Present(attrs.model) then
      var filtered := SameMakeAndModel(attrs, catalog);
      SameMakeAndModelMembers(attrs, catalog);
      if filtered == [] then catalog
      else
        assert filtered[0] in filtered;
        filtered
    else catalog
  }

  /**
   * `findBestMatch`: scores every vehicle of the catalog, keeping the first
   * one with the highest score unless a later one with that score has more
   * listings, and reports its id with the score as confidence.
   */
  method FindBestMatch(attrs: Attributes, catalog: seq<Vehicle>, counts: map<string, nat>)
    returns (r: MatchResult)
    ensures r == BestMatch(attrs, catalog, counts)
    ensures catalog == [] ==> r == MatchResult(None, 0)
    ensures catalog != [] ==>
              exists w: nat ::
                IsWinner(ScoresOf(attrs, catalog), CountsOf(counts, catalog), |catalog|, w) &&
                r == MatchResult(Some(catalog[w].id), Score(attrs, catalog[w]))
  {
    // The candidate list is computed but, as in the program it models, the
    // scoring loop runs over the whole catalog regardless.
    var candidates := Candidates(attrs, catalog);

    ghost var sc, cn := ScoresOf(attrs, catalog), CountsOf(counts, catalog);
    var bestVehicle: Option<Vehicle> := None;
    var bestScore: Option<int> := None;
    ghost var w: nat := 0;
    for i := 0 to |catalog|
      invariant i == 0 ==> bestVehicle.None? && bestScore.None?
      invariant i > 0 ==> w == Leader(sc, cn, i)
      invariant i > 0 ==> bestVehicle == Some(catalog[w]) && bestScore == Some(sc[w])
    {
      var v := catalog[i];
      var score := Score(attrs, v);
      assert score == sc[i];
      if bestScore.None? || score > bestScore.value {
        bestScore := Some(score);
        bestVehicle := Some(v);
        w := i;
      } else if score == bestScore.value && bestVehicle.Some? {
        var countA := ListingCount(counts, v.id);
        var countB := ListingCount(counts, bestVehicle.value.id);
        assert countA == cn[i] && countB == cn[w];
        if countA > countB {
          bestVehicle := Some(v);
          w := i;
        }
      }
    }

    var id := if bestVehicle.Some? then Some(bestVehicle.value.id) else None;
    var confidence := if bestScore.Some? then Clamp(bestScore.value) else 0;
    r := MatchResult(id, confidence);
    BestMatchIsWinner(attrs, catalog, counts);
  }
}
