/**
 * A worked description, "vw golf gti performance petrol manual": its split
 * into tokens, and the attributes the extractor reads off those tokens.
 */
module Scenarios {
  import opened Wrappers
  import opened Text
  import opened Parser

  /** The description, already lower-case and free of noise markers. */
  const GolfText: string := "vw golf gti performance petrol manual"

  /** The tokens of `GolfText`. */
  const GolfTokens: seq<string> := ["vw", "golf", "gti", "performance", "petrol", "manual"]

  lemma GolfPieces()
    ensures Pieces(GolfTokens)
  {
    PiecesMeaning(GolfTokens);
  }

  lemma GolfJoin()
    ensures Join(GolfTokens) == GolfText
  {
  }

  /** Splitting the description on whitespace gives its six tokens. */
  lemma GolfSplit()
    ensures Split(GolfText) == GolfTokens
  {
    GolfPieces();
    GolfJoin();
    SplitJoin(GolfTokens);
  }

  lemma GolfMake()
    ensures ExtractMake(GolfTokens) == Some("volkswagen")
  {
    assert FindFirst(GolfTokens, MakeTokens, 0) == Some(0);
  }

  lemma GolfModel()
    ensures ExtractModel(GolfTokens) == Some("golf")
  {
    assert GolfTokens[0] !in Models;
    assert FindFirst(GolfTokens, Models, 0) == Some(1);
  }

  lemma GolfBadgeSpan()
    ensures IndexOf(GolfTokens, "golf") == 1 && BadgeEnd(GolfTokens, 1) == 4
  {
    IndexOfLeftmost(GolfTokens, 1, Models);
    BadgeEndIsFirstBoundary(GolfTokens, 1, 4);
  }

  lemma GolfBadgeText()
    ensures BadgeText(["gti", "performance"]) == "gti performance"
  {
    BadgeTextOfPlainTokens(["gti", "performance"]);
    assert Join(["gti", "performance"]) == "gti performance";
  }

  lemma GolfBadge()
    ensures ExtractBadge(GolfTokens, "golf") == Some("gti performance")
  {
    GolfBadgeSpan();
    GolfBadgeText();
    assert GolfTokens[2..4] == ["gti", "performance"];
  }

  lemma GolfFuel()
    ensures ExtractFuel(GolfTokens) == Some("petrol")
  {
    assert FindFirst(GolfTokens, FuelTokens, 0) == Some(4);
  }

  lemma GolfTransmission()
    ensures ExtractTransmission(GolfTokens) == Some("manual")
  {
    assert FindFirst(GolfTokens, Transmissions, 0) == Some(5);
  }

  lemma GolfDrive()
    ensures ExtractDrive(GolfTokens) == None
  {
    assert FindFirst(GolfTokens, DriveMap.Keys, 0) == None;
  }

  /** The badge runs from after the model up to, not including, the first fuel token. */
  lemma BadgeStopsAtFuel()
    ensures ParseTokens(GolfTokens) ==
            Attributes(Some("volkswagen"), Some("golf"), Some("gti performance"),
                       Some("petrol"), Some("manual"), None)
  {
    GolfMake();
    GolfModel();
    GolfBadge();
    GolfFuel();
    GolfTransmission();
    GolfDrive();
  }

  const HybridTokens: seq<string> := ["golf", "gti", "hybrid", "petrol"]

  lemma HybridBadgeSpan()
    ensures IndexOf(HybridTokens, "golf") == 0 && BadgeEnd(HybridTokens, 0) == 3
  {
    IndexOfLeftmost(HybridTokens, 0, Models);
    BadgeEndIsFirstBoundary(HybridTokens, 0, 3);
  }

  /** "hybrid" is a fuel token but not a badge boundary: it stays in the badge. */
  lemma HybridStaysInBadge()
    ensures ExtractBadge(HybridTokens, "golf") == Some("gti hybrid")
  {
    HybridBadgeSpan();
    assert HybridTokens[1..3] == ["gti", "hybrid"];
    BadgeTextOfPlainTokens(["gti", "hybrid"]);
    assert Join(["gti", "hybrid"]) == "gti hybrid";
  }
}
