# vehicle-matcher, modelled in Dafny

vehicle-matcher takes a free-text vehicle description, such as the title of a
classified ad, and finds the closest vehicle in a catalog. It works in two
stages.

- **Attribute extraction** (`parseDescription`). The text is lower-cased and
  cut at the earliest noise marker (" with ", " for sale", " kms", ...). It is
  then split on whitespace runs. From the tokens the extractor reads:
  - the make, from the first make token, with "vw" standing for "volkswagen";
  - the model, from the first model token;
  - the badge: the tokens after the model up to the first "petrol",
    "diesel", "automatic", "manual" or drive alias, with hyphens and slashes
    turned into spaces, joined and trimmed. "hybrid" is a fuel token but does
    not end the badge;
  - the fuel type, from the first fuel token, with "hybrid" standing for
    "hybrid-petrol";
  - the transmission type, from the first transmission token;
  - the drive type, the display form of the first drive alias.
- **Matching** (`findBestMatch`). Every vehicle of the catalog gets a score,
  the sum of the weights of the attributes it agrees with: make 2, model 2,
  badge 3, fuel 1, transmission 1, drive 1. The loop keeps the first vehicle
  with the highest score. A later vehicle with an equal score replaces it only
  if it has strictly more listings. The matcher reports the kept vehicle's id,
  with the score clamped to [0,10] as confidence. An empty catalog gives no id
  and confidence 0.

The badge agrees when the whole parsed badge phrase, lower-cased, occurs in the
vehicle's lower-cased badge with a word boundary at each end. A two-word badge
such as "gti 4motion" therefore does not match a vehicle badge "GTI": a badge
that matches only in part scores nothing.

The matcher also builds a candidate list of the vehicles with the parsed make
and model, falling back to the whole catalog. Its scoring loop still runs over
the whole catalog, so this list never changes the result. In the model,
`FindBestMatch` computes the list, and its contract does not depend on it.

Modules:

- `Wrappers`: the `Option` type.
- `Text`: the string primitives the extractor uses: lower-casing, splitting
  on whitespace, joining, trimming and replacing separators.
- `Parser`: the vocabularies, the noise cut, the token search and the six
  extractors. Also the lemmas on what `ParseDescription` returns.
- `Matcher`: the weights, the field matching, the score, the tie-break and
  the `FindBestMatch` loop. The loop is proved against the specification
  function `BestMatch` and the predicate `IsWinner`.
- `Scenarios`: the split of "vw golf gti performance petrol manual" into its
  tokens, and the attributes read off those tokens.

## Model

| member | source | states |
|---|---|---|
| Text.Lower | src/parser.ts:22 | lower-casing keeps the length of the text |
| Text.LowerAt | src/parser.ts:22 | each character is lower-cased on its own, at its own position |
| Text.LowerIdempotent | src/parser.ts:22 | lower-casing lower-cased text changes nothing |
| Text.LowerIsPointwise | src/parser.ts:22 | a text is the lower-cased form of another exactly when it has the same length and lower-cases it character by character |
| Text.LowerPrefix | src/parser.ts:22 | lower-casing a prefix gives the prefix of the lower-cased text |
| Text.IsSpace | src/parser.ts:28 | the whitespace that `\s` matches, restricted to ASCII: space, tab, line feed, vertical tab, form feed and carriage return |
| Text.Word | src/parser.ts:28 | the first piece is no longer than the text, and whitespace follows it unless it reaches the end |
| Text.WordIsPrefix | src/parser.ts:28 | the first piece is a prefix of the text and holds no whitespace |
| Text.TrimStart | src/parser.ts:51 | the result is no longer than the text and does not start with whitespace; leading whitespace makes it strictly shorter |
| Text.TrimStartIsSuffix | src/parser.ts:51 | trimming the start keeps a suffix and drops only whitespace |
| Text.TrimEnd | src/parser.ts:51 | the result is no longer than the text and does not end with whitespace |
| Text.TrimEndIsPrefix | src/parser.ts:51 | trimming the end keeps a prefix and drops only whitespace |
| Text.Trim | src/parser.ts:51 | the trimmed text neither starts nor ends with whitespace |
| Text.TrimIsInfix | src/parser.ts:51 | trimming keeps a middle slice and drops only whitespace at both ends |
| Text.Split | src/parser.ts:28 | `split(/\s+/)`; characterized by `Text.SplitPieces`, `Text.SplitKeepsText`, `Text.SplitJoin` and `Text.JoinSplitSqueezes` |
| Text.PiecesMeaning | src/parser.ts:28 | a well-formed split has at least one piece, no piece holds whitespace, and only the first and last pieces can be empty |
| Text.SplitPieces | src/parser.ts:28 | every split is well formed; the first piece is empty only if the text is empty or starts with whitespace |
| Text.SplitKeepsText | src/parser.ts:28 | the pieces, concatenated, are the text without its whitespace |
| Text.SplitJoin | src/parser.ts:28 | splitting a well-formed piece list joined with single spaces gives that list back |
| Text.Join | src/parser.ts:50 | `join(' ')`; `Text.SplitJoin` and `Text.JoinSplitSqueezes` relate it to `Text.Split`, `Parser.JoinAvoidsSeparators` says it adds only spaces |
| Text.JoinSplitSqueezes | src/parser.ts:28 | joining the pieces with single spaces gives the text with each maximal whitespace run turned into one space, so every cut falls on exactly one whitespace run |
| Text.ReplaceSeparators | src/parser.ts:49 | each hyphen and slash becomes a space and every other character stays; characterized by `Text.ReplaceSeparatorsKeeps` |
| Text.ReplaceSeparatorsKeeps | src/parser.ts:49 | replacing separators leaves a token unchanged exactly when it has no hyphen or slash |
| Parser.MarkerAt | src/parser.ts:11-19 | one of the seven noise markers starts at the given position |
| Parser.NoiseStart | src/parser.ts:25-26 | the search for a marker stays within the text and starts no earlier than asked |
| Parser.NoiseStartIsEarliest | src/parser.ts:25-26 | no marker occurs before the position found, and one starts there unless it is the end |
| Parser.CutNoise | src/parser.ts:26 | the cut text is a prefix of the text |
| Parser.CutNoiseIsEarliest | src/parser.ts:11-26 | the cut text holds no marker, and a marker starts right after it unless nothing was cut |
| Parser.CutNoiseKeepsClean | src/parser.ts:25-26 | text with no marker is kept whole |
| Parser.CutNoiseAtEarliest | src/parser.ts:25-26 | when the earliest marker is at p, the cut text is the first p characters |
| Parser.Tokens | src/parser.ts:22-28 | lower-case, cut at the earliest noise marker, split on whitespace runs; characterized by `Parser.TokensIgnoreNoise` and `Parser.ParseIgnoresCase` |
| Parser.FindFirst | src/parser.ts:41-46 | the index found is the leftmost at or after the start whose token is in the vocabulary, and there is none when no index is found |
| Parser.FindToken | src/parser.ts:31 | a token found is in the vocabulary and is the leftmost such token of the list; no token is found only if none is in the vocabulary |
| Parser.IndexOf | src/parser.ts:40 | the position is that of the first occurrence of the token |
| Parser.BadgeEnd | src/parser.ts:41-46 | the badge ends at the first boundary token after the model, or at the end of the token list |
| Parser.BadgeEndIsFirstBoundary | src/parser.ts:41-46 | any position that ends a run of non-boundary tokens after the model, at a boundary or at the end, is the badge end |
| Parser.BadgeText | src/parser.ts:47-51 | the badge text neither starts nor ends with whitespace and has no hyphen or slash |
| Parser.BadgeTextOfPlainTokens | src/parser.ts:47-51 | tokens with no hyphen or slash are joined with single spaces and trimmed |
| Parser.JoinAvoidsSeparators | src/parser.ts:50 | joining pieces with no hyphen or slash adds none |
| Parser.NonEmpty | src/parser.ts:52 | the badge is absent exactly when its text is empty, and otherwise it is that text |
| Parser.ExtractBadge | src/parser.ts:38-53 | a badge is never empty, has no whitespace at either end and holds no hyphen or slash |
| Parser.ExtractBadgeIsSpan | src/parser.ts:38-53 | the badge is built from exactly the tokens between the first model token and the first boundary after it |
| Parser.IndexOfLeftmost | src/parser.ts:40 | the first occurrence of the leftmost vocabulary token is where it was found |
| Parser.ExtractMake | src/parser.ts:31-32 | the make; characterized by `Parser.MakeIsLeftmost` and `Parser.MakeValues` |
| Parser.ExtractModel | src/parser.ts:35 | the model; characterized by `Parser.ModelIsLeftmost` and `Parser.ModelValues` |
| Parser.ExtractFuel | src/parser.ts:56-57 | the fuel type; characterized by `Parser.FuelIsLeftmost` and `Parser.FuelValues` |
| Parser.ExtractTransmission | src/parser.ts:60 | the transmission type; characterized by `Parser.TransmissionIsLeftmost` and `Parser.TransmissionValues` |
| Parser.ExtractDrive | src/parser.ts:63-66 | the drive type; characterized by `Parser.DriveIsLeftmost` and `Parser.DriveValues` |
| Parser.ParseTokens | src/parser.ts:30-68 | the six extractors applied to one token list, the badge only when a model was found |
| Parser.ParseDescription | src/parser.ts:21-69 | `parseDescription`; characterized by `Parser.ParseIgnoresCase`, `Parser.ParseIgnoresNoise`, `Parser.BadgeShape`, `Parser.BadgeIsSpan`, `Parser.NoVocabularyNoAttributes` and the leftmost and value lemmas of each field |
| Parser.ParseIgnoresCase | src/parser.ts:22 | a description and its lower-cased form give the same attributes |
| Parser.ParseIgnoresNoise | src/parser.ts:21-28 | the attributes of a description are those of its text before the earliest noise marker |
| Parser.TokensIgnoreNoise | src/parser.ts:22-28 | the tokens of a description are those of its text before the earliest noise marker |
| Parser.MakeIsLeftmost | src/parser.ts:31-32 | the make comes from the leftmost make token, with "vw" turned into "volkswagen" |
| Parser.MakeValues | src/parser.ts:31-32 | the make is absent exactly when no token names a make; otherwise it is "volkswagen" or "toyota" |
| Parser.ModelIsLeftmost | src/parser.ts:35 | the model is the leftmost model token |
| Parser.ModelValues | src/parser.ts:35 | the model is absent exactly when no token is a model; otherwise it is a known model |
| Parser.BadgeShape | src/parser.ts:38-53 | no badge without a model; a badge is non-empty, not padded with whitespace and holds no hyphen or slash |
| Parser.BadgeIsSpan | src/parser.ts:38-53 | the badge of a description comes from exactly the tokens between the first model token and the first later boundary token |
| Parser.BoundaryTokens | src/parser.ts:41-46 | the boundary tokens are the four fuel and transmission words and the four drive aliases; "hybrid" and the make tokens are not among them |
| Parser.FuelIsLeftmost | src/parser.ts:56-57 | the fuel type comes from the leftmost fuel token, with "hybrid" turned into "hybrid-petrol" |
| Parser.FuelValues | src/parser.ts:56-57 | the fuel type is absent exactly when no fuel token occurs; otherwise it is petrol, diesel or hybrid-petrol |
| Parser.TransmissionIsLeftmost | src/parser.ts:60 | the transmission type is the leftmost transmission token |
| Parser.TransmissionValues | src/parser.ts:60 | the transmission type is absent exactly when no transmission token occurs; otherwise it is automatic or manual |
| Parser.DriveIsLeftmost | src/parser.ts:63-66 | the drive type is the display form of the leftmost drive alias |
| Parser.DriveValues | src/parser.ts:63-66 | the drive type is absent exactly when no drive alias occurs; otherwise it is one of the three display forms |
| Parser.NoVocabularyNoAttributes | src/parser.ts:21-69 | a description with no recognized token gives no attribute at all |
| Scenarios.GolfSplit | src/parser.ts:28 | splitting "vw golf gti performance petrol manual" on whitespace gives its six tokens |
| Scenarios.GolfMake | src/parser.ts:31-32 | "vw" gives the make "volkswagen" |
| Scenarios.GolfModel | src/parser.ts:35 | "golf" is the model |
| Scenarios.GolfBadgeSpan | src/parser.ts:40-46 | the model is at position 1 and the badge ends at "petrol", position 4 |
| Scenarios.GolfBadgeText | src/parser.ts:47-51 | "gti" and "performance" give the badge text "gti performance" |
| Scenarios.GolfBadge | src/parser.ts:38-53 | the badge is "gti performance" |
| Scenarios.GolfFuel | src/parser.ts:56-57 | the fuel type is "petrol" |
| Scenarios.GolfTransmission | src/parser.ts:60 | the transmission type is "manual" |
| Scenarios.GolfDrive | src/parser.ts:63-66 | no drive type |
| Scenarios.BadgeStopsAtFuel | src/parser.ts:30-69 | the tokens of "vw golf gti performance petrol manual" give volkswagen, golf, "gti performance", petrol, manual and no drive type |
| Scenarios.HybridBadgeSpan | src/parser.ts:40-46 | in "golf gti hybrid petrol" the badge runs past "hybrid" and ends at "petrol", position 3 |
| Scenarios.HybridStaysInBadge | src/parser.ts:38-53 | "golf gti hybrid petrol" gives the badge "gti hybrid": the fuel token "hybrid" does not end the badge |
| Matcher.FieldsListed | src/matcher.ts:10-17 | the weights table lists each of the six fields exactly once |
| Matcher.WeightsSumToTen | src/matcher.ts:9-17 | the weights sum to 10 |
| Matcher.Weight | src/matcher.ts:10-17 | the `WEIGHTS` table: make 2, model 2, badge 3, fuel 1, transmission 1, drive 1; `Matcher.WeightsSumToTen` sums them |
| Matcher.Present | src/matcher.ts:42-62 | JavaScript truthiness of a parsed attribute: present and not the empty string |
| Matcher.PhraseMatches | src/matcher.ts:49-50 | the badge regular expression `\b<badge>\b` read as a literal phrase between word boundaries; characterized by `Matcher.PhraseInText` and `Matcher.PhraseNeedsBoundary` |
| Matcher.PhraseInText | src/matcher.ts:49-50 | a badge that starts and ends with word characters matches wherever non-word text, or the text's edge, surrounds it |
| Matcher.PhraseNeedsBoundary | src/matcher.ts:49-50 | a badge running straight on into a word character does not match there |
| Matcher.FieldMatches | src/matcher.ts:42-62 | the six tests of the scoring loop, one per field; `Matcher.Points` gives each its weight |
| Matcher.Points | src/matcher.ts:42-63 | a field contributes its whole weight when it matches and nothing otherwise |
| Matcher.PointsSum | src/matcher.ts:40-63 | the running score over a list of fields; characterized by `Matcher.PointsSumBounds` |
| Matcher.PointsSumBounds | src/matcher.ts:40-63 | the points never exceed the weights; they reach them exactly when every field matches, and are 0 exactly when none does |
| Matcher.Score | src/matcher.ts:40-63 | every score lies in [0,10] |
| Matcher.ScoreIsMatchedWeight | src/matcher.ts:40-63 | the score adds, in table order, the weight of each matching field |
| Matcher.PerfectScore | src/matcher.ts:40-63 | the score is 10 exactly when all six fields match |
| Matcher.ZeroScore | src/matcher.ts:40-63 | the score is 0 exactly when no field matches |
| Matcher.NothingScoresZero | src/matcher.ts:42-63 | attributes that are all absent score 0 against every vehicle |
| Matcher.ListingCount | src/matcher.ts:69-70 | a vehicle missing from the listing counts counts 0 listings |
| Matcher.IsWinner | src/matcher.ts:65-72 | the tie-break rule stated on its own: top score, then most listings, then earliest in catalog order; `Matcher.LeaderIsWinner` and `Matcher.WinnerIsUnique` tie it to the loop |
| Matcher.Leader | src/matcher.ts:65-72 | the vehicle kept is one of those scored so far |
| Matcher.LeaderIsWinner | src/matcher.ts:65-72 | the vehicle kept has the top score; among top scorers it has the most listings; every earlier top scorer has strictly fewer |
| Matcher.WinnerIsUnique | src/matcher.ts:65-72 | at most one vehicle satisfies the tie-break rule |
| Matcher.Clamp | src/matcher.ts:77 | the confidence lies in [0,10] and equals the score when the score does |
| Matcher.BestMatch | src/matcher.ts:36-78 | the result of scoring the whole catalog; characterized by `Matcher.BestMatchIsWinner` |
| Matcher.BestMatchIsWinner | src/matcher.ts:36-78 | the catalog is empty exactly when the result is no id with confidence 0; otherwise the result names the winning vehicle, with its score as confidence |
| Matcher.OfMakeAndModel | src/matcher.ts:26-27 | the vehicle's lower-cased make and model equal the parsed ones |
| Matcher.SameMakeAndModel | src/matcher.ts:25-28 | the pre-filter, in catalog order; characterized by `Matcher.SameMakeAndModelMembers` |
| Matcher.SameMakeAndModelMembers | src/matcher.ts:25-28 | the pre-filter keeps exactly the catalog vehicles with the parsed make and model |
| Matcher.Candidates | src/matcher.ts:23-34 | without both make and model the candidates are the whole catalog; with both, they are exactly the catalog vehicles of that make and model when there is one, and the whole catalog when there is none; a non-empty catalog never gives an empty candidate list; every candidate is in the catalog |
| Matcher.FindBestMatch | src/matcher.ts:19-79 | the loop returns the specified best match: no id and confidence 0 for an empty catalog, otherwise the winner's id with its score as confidence |

## Left out

- src/server.ts, src/cache.ts and src/test.ts are not part of this model. They hold HTTP routing, the admin token check, logging, the database reads behind the catalog cache, its periodic refresh and the HTTP test client. All of these are I/O.
- The catalog and the listing counts are parameters of `FindBestMatch`. The model does not capture that the cache swaps the vehicle list before the listing counts are fetched, so one call may see vehicles and counts from different refreshes.
- `findBestMatch` is `async`. The model treats it as synchronous, since it awaits nothing.
- Text.Lower: lower-cases only the ASCII letters A-Z. `toLowerCase` also maps non-ASCII letters.
- Text.IsSpace: covers only the ASCII whitespace of `\s` and `trim` (space, tab, line feed, vertical tab, form feed, carriage return). The no-break space, the line and paragraph separators and the other Unicode spaces are not modelled.
- Parser.CutNoise: the noise regular expression is modelled as the earliest position where any of the literal markers starts. Its case-insensitive flag has no effect after lower-casing, and the markers hold no regex metacharacters.
- Matcher.PhraseMatches: reads the parsed badge as a literal phrase between two word boundaries. The source puts the badge into a regular expression unescaped, so `.`, `+` or `*` in a badge act as regex syntax, and an unbalanced `(` makes the constructor throw.
- Lookups that the source makes on plain objects (the make and drive tables, the listing counts) are modelled as finite maps holding only their declared keys. A token such as "constructor" would reach an inherited property in the source.
- Parser.IndexOf: requires the token to occur in the list. The source looks up only a model token taken from the same list, so its -1 result for a missing token never arises. Parser.ExtractBadge has the same requirement for the same reason.
- `bestScore` starts at `-Infinity`; the model uses `None` instead. Scores and confidences are integers, since all weights are integers.
- Matcher.Vehicle: every field is a string. In the source, a null make, model, badge, fuel type or transmission type makes `toLowerCase` throw, but only when the matching parsed attribute is present (src/matcher.ts:42-58); a null make throws in the pre-filter whenever both make and model were parsed, and a null model throws there only for a vehicle whose make matches (src/matcher.ts:25-27). The model does not capture these exceptions. A null drive type is compared with `===` and never matches (src/matcher.ts:62); the model represents it as "", which never matches because an empty attribute is never present. A null id, which the source would report as `vehicleId: null`, is not modelled.
- Scenarios: the split of the literal text into its tokens is proved (`Scenarios.GolfSplit`). Not proved for that string: that lower-casing leaves it unchanged and that it holds no noise marker, so `Tokens` of the text is not evaluated. No concrete catalog is scored: the worked example stops at the extracted attributes.
