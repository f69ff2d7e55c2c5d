/**
 * The JavaScript string primitives the extractor is built from, restricted to
 * ASCII: lower-casing, splitting on whitespace runs, joining with single
 * spaces, trimming, and turning hyphens and slashes into spaces.
 */
module Text {

  /**
   * The ASCII characters matched by the regular-expression class `\s`: the
   * space and the five control characters from tab to carriage return.
   */
  predicate IsSpace(c: char) {
    c == ' ' || '\t' <= c <= '\r'
  }

  predicate NoSpace(s: string) {
    forall i :: 0 <= i < |s| ==> !IsSpace(s[i])
  }

  function LowerChar(c: char): char {
    if 'A' <= c <= 'Z' then (c as int + 32) as char else c
  }

  /** `s.toLowerCase()` for ASCII letters; every other character is kept. */
  function Lower(s: string): (r: string)
    ensures |r| == |s|
  {
    if s == [] then [] else [LowerChar(s[0])] + Lower(s[1..])
  }

  /** Lower-casing maps each character on its own. */
  lemma {:induction false} LowerAt(s: string, i: nat)
    requires i < |s|
    ensures Lower(s)[i] == LowerChar(s[i])
  {
    if i > 0 {
      LowerAt(s[1..], i - 1);
    }
  }

  /** Lower-casing twice is lower-casing once. */
  lemma LowerIdempotent(s: string)
    ensures Lower(Lower(s)) == Lower(s)
  {
    forall i | 0 <= i < |s|
      ensures Lower(Lower(s))[i] == Lower(s)[i]
    {
      LowerAt(s, i);
      LowerAt(Lower(s), i);
    }
  }

  /** `t` is the lower-cased form of `s` exactly when it lower-cases `s` character by character. */
  lemma LowerIsPointwise(s: string, t: string)
    ensures Lower(s) == t <==> |s| == |t| && forall i :: 0 <= i < |s| ==> LowerChar(s[i]) == t[i]
  {
    forall i | 0 <= i < |s| ensures Lower(s)[i] == LowerChar(s[i]) {
      LowerAt(s, i);
    }
  }

  /** Lower-casing commutes with taking a prefix. */
  lemma LowerPrefix(s: string, p: nat)
    requires p <= |s|
    ensures Lower(s[..p]) == Lower(s)[..p]
  {
    forall i | 0 <= i < p
      ensures Lower(s[..p])[i] == Lower(s)[i]
    {
      LowerAt(s, i);
      LowerAt(s[..p], i);
    }
  }

  /** The whitespace-free characters of `s`, in order. */
  function NonSpace(s: string): string {
    if s == [] then [] else (if IsSpace(s[0]) then [] else [s[0]]) + NonSpace(s[1..])
  }

  lemma {:induction false} NonSpaceAppend(a: string, b: string)
    ensures NonSpace(a + b) == NonSpace(a) + NonSpace(b)
  {
    if a == [] {
      assert a + b == b;
    } else {
      assert (a + b)[0] == a[0];
      assert (a + b)[1..] == a[1..] + b;
      NonSpaceAppend(a[1..], b);
    }
  }

  /** The longest prefix of `s` holding no whitespace. */
  function Word(s: string): (w: string)
    ensures |w| <= |s|
    ensures |w| < |s| ==> IsSpace(s[|w|])
  {
    if s == [] || IsSpace(s[0]) then [] else [s[0]] + Word(s[1..])
  }

  lemma {:induction false} WordIsPrefix(s: string)
    ensures s[..|Word(s)|] == Word(s) && NoSpace(Word(s))
  {
    if s != [] && !IsSpace(s[0]) {
      var w := Word(s[1..]);
      WordIsPrefix(s[1..]);
      assert Word(s) == [s[0]] + w;
      assert s[..1 + |w|] == [s[0]] + s[1..][..|w|];
      assert forall i :: 1 <= i < 1 + |w| ==> Word(s)[i] == w[i - 1];
    }
  }

  /** `s.trimStart()`: `s` without its leading whitespace. */
  function TrimStart(s: string): (r: string)
    ensures |r| <= |s|
    ensures r == [] || !IsSpace(r[0])
    ensures s != [] && IsSpace(s[0]) ==> |r| < |s|
  {
    if s != [] && IsSpace(s[0]) then TrimStart(s[1..]) else s
  }

  /** Trimming the start removes whitespace only. */
  lemma {:induction false} TrimStartIsSuffix(s: string)
    ensures TrimStart(s) == s[|s| - |TrimStart(s)|..]
    ensures forall i :: 0 <= i < |s| - |TrimStart(s)| ==> IsSpace(s[i])
  {
    if s != [] && IsSpace(s[0]) {
      TrimStartIsSuffix(s[1..]);
    }
  }

  /** `s.trimEnd()`: `s` without its trailing whitespace. */
  function TrimEnd(s: string): (r: string)
    ensures |r| <= |s|
    ensures r == [] || !IsSpace(r[|r| - 1])
  {
    if s != [] && IsSpace(s[|s| - 1]) then TrimEnd(s[..|s| - 1]) else s
  }

  /** Trimming the end removes whitespace only. */
  lemma {:induction false} TrimEndIsPrefix(s: string)
    ensures TrimEnd(s) == s[..|TrimEnd(s)|]
    ensures forall i :: |TrimEnd(s)| <= i < |s| ==> IsSpace(s[i])
  {
    if s != [] && IsSpace(s[|s| - 1]) {
      TrimEndIsPrefix(s[..|s| - 1]);
    }
  }

  /** `s.trim()`: `s` less the whitespace at both its ends. */
  function Trim(s: string): (r: string)
    ensures |r| <= |s|
    ensures r == [] || (!IsSpace(r[0]) && !IsSpace(r[|r| - 1]))
  {
    var t := TrimStart(s);
    var r := TrimEnd(t);
    TrimEndIsPrefix(t);
    assert r != [] ==> r[0] == t[0];
    r
  }

  /** Trimming keeps a middle slice of `s` and removes nothing but whitespace. */
  lemma TrimIsInfix(s: string)
    ensures exists a, b ::
              0 <= a <= b <= |s| && Trim(s) == s[a..b] &&
              (forall i :: 0 <= i < a ==> IsSpace(s[i])) &&
              (forall i :: b <= i < |s| ==> IsSpace(s[i]))
  {
    var t := TrimStart(s);
    var r := TrimEnd(t);
    TrimStartIsSuffix(s);
    TrimEndIsPrefix(t);
    var a := |s| - |t|;
    assert r == s[a..a + |r|];
    assert forall i :: a + |r| <= i < |s| ==> s[i] == t[i - a];
  }

  /**
   * `s.split(/\s+/)`: the pieces of `s` between maximal runs of whitespace.
   * Leading or trailing whitespace yields an empty first or last piece, and
   * the empty string yields one empty piece.
   */
  function Split(s: string): seq<string>
    decreases |s|
  {
    var w := Word(s);
    var rest := s[|w|..];
    if rest == [] then [w] else [w] + Split(TrimStart(rest))
  }

  /**
   * What `Split` can produce: at least one piece, no piece holding
   * whitespace, and only the first and the last possibly empty.
   */
  predicate Pieces(ts: seq<string>) {
    |ts| >= 1 && NoSpace(ts[0]) &&
    (|ts| == 1 || ((|ts| == 2 || ts[1] != []) && Pieces(ts[1..])))
  }

  /** `Pieces` spelled out with quantifiers. */
  lemma {:induction false} PiecesMeaning(ts: seq<string>)
    ensures Pieces(ts) <==>
              |ts| >= 1 &&
              (forall k :: 0 <= k < |ts| ==> NoSpace(ts[k])) &&
              (forall k :: 0 < k < |ts| - 1 ==> ts[k] != [])
  {
    if |ts| >= 2 {
      PiecesMeaning(ts[1..]);
      assert forall k :: 0 < k < |ts| ==> ts[k] == ts[1..][k - 1];
    }
  }

  /**
   * Every split is well formed, and its first piece is empty only when `s`
   * is empty or starts with whitespace.
   */
  lemma {:induction false} SplitPieces(s: string)
    ensures Pieces(Split(s))
    ensures s != [] && !IsSpace(s[0]) ==> Split(s)[0] != []
    decreases |s|
  {
    var w := Word(s);
    var rest := s[|w|..];
    WordIsPrefix(s);
    if rest != [] {
      var t := TrimStart(rest);
      SplitPieces(t);
      var tail := Split(t);
      assert Split(s) == [w] + tail;
      assert Split(s)[1..] == tail;
    }
  }

  /** `ts.join(' ')`. */
  function Join(ts: seq<string>): string {
    if |ts| == 0 then [] else if |ts| == 1 then ts[0] else ts[0] + " " + Join(ts[1..])
  }

  /** Every hyphen and slash of `t` becomes a space. */
  function ReplaceSeparators(t: string): (r: string) {
    seq(|t|, i requires 0 <= i < |t| => if t[i] == '-' || t[i] == '/' then ' ' else t[i])
  }

  /** Text without hyphens or slashes is left as it is; every other text is changed. */
  lemma ReplaceSeparatorsKeeps(t: string)
    ensures ReplaceSeparators(t) == t <==> forall i :: 0 <= i < |t| ==> t[i] != '-' && t[i] != '/'
  {
    if ReplaceSeparators(t) == t {
      forall i | 0 <= i < |t| ensures t[i] != '-' && t[i] != '/' {
        assert ReplaceSeparators(t)[i] == t[i];
      }
    }
  }

  function Concat(ts: seq<string>): string {
    if ts == [] then [] else ts[0] + Concat(ts[1..])
  }

  /** Splitting loses no text but the whitespace: the pieces hold every other character, in order. */
  lemma {:induction false} SplitKeepsText(s: string)
    ensures Concat(Split(s)) == NonSpace(s)
    decreases |s|
  {
    var w := Word(s);
    var rest := s[|w|..];
    WordIsPrefix(s);
    assert s == w + rest;
    NonSpaceAppend(w, rest);
    NoSpaceIsKept(w);
    if rest == [] {
      assert Split(s) == [w];
      assert Concat([w]) == w + Concat([]);
    } else {
      var t := TrimStart(rest);
      NonSpaceSkipsLeadingSpace(rest);
      SplitKeepsText(t);
      var tail := Split(t);
      assert Split(s) == [w] + tail;
      assert ([w] + tail)[1..] == tail;
    }
  }

  lemma {:induction false} NonSpaceSkipsLeadingSpace(s: string)
    ensures NonSpace(TrimStart(s)) == NonSpace(s)
  {
    if s != [] && IsSpace(s[0]) {
      NonSpaceSkipsLeadingSpace(s[1..]);
    }
  }

  lemma {:induction false} NoSpaceIsKept(w: string)
    requires NoSpace(w)
    ensures NonSpace(w) == w
  {
    if w != [] {
      NoSpaceIsKept(w[1..]);
    }
  }

  /** Joining well-formed pieces with single spaces and splitting again gives them back. */
  lemma {:induction false} SplitJoin(ts: seq<string>)
    requires Pieces(ts)
    ensures Split(Join(ts)) == ts
  {
    if |ts| == 1 {
      SplitOfWord(ts[0]);
    } else {
      var j := Join(ts[1..]);
      JoinOfRestIsTrimmed(ts);
      SplitAfterWord(ts[0], j);
      assert Split(Join(ts)) == [ts[0]] + Split(j);
      SplitJoin(ts[1..]);
      assert ts == [ts[0]] + ts[1..];
    }
  }

  lemma JoinOfRestIsTrimmed(ts: seq<string>)
    requires |ts| >= 2 && Pieces(ts)
    ensures Join(ts) == ts[0] + " " + Join(ts[1..])
    ensures Join(ts[1..]) == [] || !IsSpace(Join(ts[1..])[0])
  {
    var j := Join(ts[1..]);
    JoinStartsWithFirst(ts[1..]);
    if ts[1] != [] {
      assert j[0] == ts[1][0];
    }
  }

  /** A word, one space and text that does not start with whitespace split into the word and the text's pieces. */
  lemma SplitAfterWord(w: string, j: string)
    requires NoSpace(w)
    requires j == [] || !IsSpace(j[0])
    ensures Split(w + " " + j) == [w] + Split(j)
  {
    var s := w + " " + j;
    var rest := " " + j;
    assert s == w + rest;
    WordOfWord(w, rest);
    assert s[|w|..] == rest;
    assert rest[1..] == j;
    assert TrimStart(rest) == TrimStart(j);
    assert TrimStart(j) == j;
  }

  /** Text without whitespace is a single piece. */
  lemma SplitOfWord(w: string)
    requires NoSpace(w)
    ensures Split(w) == [w]
  {
    WordOfWord(w, []);
    assert w + [] == w;
  }

  lemma {:induction false} WordOfWord(w: string, tail: string)
    requires NoSpace(w)
    requires tail == [] || IsSpace(tail[0])
    ensures Word(w + tail) == w
  {
    if w != [] {
      assert (w + tail)[1..] == w[1..] + tail;
      WordOfWord(w[1..], tail);
    }
  }

  lemma {:induction false} JoinStartsWithFirst(ts: seq<string>)
    requires |ts| >= 1
    ensures ts[0] <= Join(ts)
  {
  }

  /**
   * `s` with each maximal run of whitespace replaced by one space: a
   * whitespace character followed by another is dropped, and the last one of
   * a run becomes a space.
   */
  function Squeeze(s: string): string {
    if s == [] then []
    else if !IsSpace(s[0]) then [s[0]] + Squeeze(s[1..])
    else if |s| > 1 && IsSpace(s[1]) then Squeeze(s[1..])
    else " " + Squeeze(s[1..])
  }

  /**
   * Joining the pieces of a split with single spaces squeezes the text's
   * whitespace runs. With `SplitJoin`, this fixes where every cut falls.
   */
  lemma {:induction false} JoinSplitSqueezes(s: string)
    ensures Join(Split(s)) == Squeeze(s)
    decreases |s|
  {
    var w := Word(s);
    var rest := s[|w|..];
    WordIsPrefix(s);
    assert s == w + rest;
    SqueezeAfterWord(w, rest);
    if rest == [] {
      assert Split(s) == [w];
      SqueezeWord(w);
    } else {
      var t := TrimStart(rest);
      SplitPieces(t);
      JoinSplitSqueezes(t);
      SqueezeRun(rest);
      var tail := Split(t);
      assert Split(s) == [w] + tail;
      assert ([w] + tail)[1..] == tail;
      assert Join([w] + tail) == w + " " + Join(tail);
      assert Squeeze(s) == w + (" " + Squeeze(t));
    }
  }

  /** Text without whitespace is left as it is. */
  lemma {:induction false} SqueezeWord(w: string)
    requires NoSpace(w)
    ensures Squeeze(w) == w
  {
    if w != [] {
      SqueezeWord(w[1..]);
    }
  }

  /** A whitespace-free prefix passes through unchanged. */
  lemma {:induction false} SqueezeAfterWord(w: string, x: string)
    requires NoSpace(w)
    ensures Squeeze(w + x) == w + Squeeze(x)
  {
    if w == [] {
      assert w + x == x;
    } else {
      assert (w + x)[0] == w[0];
      assert (w + x)[1..] == w[1..] + x;
      SqueezeAfterWord(w[1..], x);
    }
  }

  /** A leading whitespace run becomes one space. */
  lemma {:induction false} SqueezeRun(s: string)
    requires s != [] && IsSpace(s[0])
    ensures Squeeze(s) == " " + Squeeze(TrimStart(s))
  {
    if |s| > 1 && IsSpace(s[1]) {
      SqueezeRun(s[1..]);
    }
  }
}
