/** The fixed reply tables of the chat handler (`LENGTH_OPTIONS`, `ADULT_OPTIONS`), the
    genre table `GENRE_OPTIONS` parsed from the catalog's `genres` column, and the way a
    classifier answer is mapped onto a length label or an audience flag. */
module Options {
  import opened Base
  import opened Text
  import opened StringOrder

  /** The keys of `LENGTH_OPTIONS`, in the dictionary's insertion order. */
  datatype LengthLabel = Short | Medium | Long

  /** The order in which the handler walks `LENGTH_OPTIONS`. */
  const LengthOrder: seq<LengthLabel> := [Short, Medium, Long]

  /** The button text, which is also the dictionary key. */
  function Label(l: LengthLabel): string {
    match l
    case Short => "Short (up to 90 min)"
    case Medium => "Medium (91-120 min)"
    case Long => "Long (over 120 min)"
  }

  /** Inclusive runtime bounds in minutes. */
  function MinMinutes(l: LengthLabel): int {
    match l
    case Short => 0
    case Medium => 91
    case Long => 121
  }

  function MaxMinutes(l: LengthLabel): int {
    match l
    case Short => 90
    case Medium => 120
    case Long => 1000
  }

  /** The position of a label in `LengthOrder`. */
  function Rank(l: LengthLabel): (r: nat)
    ensures r < |LengthOrder| && LengthOrder[r] == l
  {
    match l
    case Short => 0
    case Medium => 1
    case Long => 2
  }

  /** `s in LENGTH_OPTIONS`: which label, if any, a button reply names exactly. */
  function LengthOption(s: string): (r: Option<LengthLabel>)
    ensures r.Some? ==> Label(r.value) == s
    ensures r.None? ==> forall l: LengthLabel :: Label(l) != s
  {
    if s == Label(Short) then Some(Short)
    else if s == Label(Medium) then Some(Medium)
    else if s == Label(Long) then Some(Long)
    else None
  }

  /** Every label is read back as itself: the buttons and the table agree. */
  lemma LengthOptionRoundTrip(l: LengthLabel)
    ensures LengthOption(Label(l)) == Some(l)
  {
  }

  /** The keys of `ADULT_OPTIONS`. */
  function AudienceLabel(adult: bool): string {
    if adult then "Adults Only" else "All Audiences"
  }

  /** `ADULT_OPTIONS.get(s)`: the audience flag a button reply names exactly. */
  function AudienceOption(s: string): (r: Option<bool>)
    ensures r.Some? ==> AudienceLabel(r.value) == s
    ensures r.None? ==> forall b: bool :: AudienceLabel(b) != s
  {
    if s == "All Audiences" then Some(false)
    else if s == "Adults Only" then Some(true)
    else None
  }

  lemma AudienceOptionRoundTrip(adult: bool)
    ensures AudienceOption(AudienceLabel(adult)) == Some(adult)
  {
  }

  /** The classifier's length answer, lower-cased, occurs inside the lower-cased label.
      The containment runs this way round: the answer is the needle. */
  predicate Fits(answer: string, l: LengthLabel) {
    Contains(Lower(Label(l)), Lower(answer))
  }

  /** `labels[i]` is the first label of `labels` that the answer fits. */
  predicate FirstFitAt(answer: string, labels: seq<LengthLabel>, i: nat)
    requires i < |labels|
  {
    Fits(answer, labels[i]) && forall k | 0 <= k < i :: !Fits(answer, labels[k])
  }

  /** The position of the first label of `labels` that the answer fits, as the
      `for ... break` loop finds it. */
  function FirstFit(answer: string, labels: seq<LengthLabel>): (r: Option<nat>)
    ensures r.None? <==> forall i | 0 <= i < |labels| :: !Fits(answer, labels[i])
    ensures r.Some? ==> r.value < |labels| && FirstFitAt(answer, labels, r.value)
    decreases |labels|
  {
    if |labels| == 0 then None
    else if Fits(answer, labels[0]) then Some(0)
    else
      var r := FirstFit(answer, labels[1..]);
      assert forall k | 1 <= k < |labels| :: labels[k] == labels[1..][k - 1];
      match r
      case None => None
      case Some(i) => Some(i + 1)
  }

  /** The length slot a classifier answer yields: the first label in Short, Medium, Long
      order that the answer fits, or none. */
  function MatchLength(answer: string): (r: Option<LengthLabel>)
    ensures forall l: LengthLabel :: r == Some(l) <==>
      Fits(answer, l) && forall e: LengthLabel :: Rank(e) < Rank(l) ==> !Fits(answer, e)
    ensures r.None? <==> forall l: LengthLabel :: !Fits(answer, l)
  {
    assert forall l: LengthLabel :: LengthOrder[Rank(l)] == l;
    match FirstFit(answer, LengthOrder)
    case None => None
    case Some(i) => Some(LengthOrder[i])
  }

  /** The audience flag a classifier answer yields: "adult" is looked for before "all". */
  function MatchAudience(answer: string): (r: Option<bool>)
    ensures r == Some(true) <==> Contains(Lower(answer), "adult")
    ensures r == Some(false) <==> !Contains(Lower(answer), "adult") && Contains(Lower(answer), "all")
  {
    if Contains(Lower(answer), "adult") then Some(true)
    else if Contains(Lower(answer), "all") then Some(false)
    else None
  }

  /** The lower-cased labels the classifier's length answer is looked up in. */
  lemma LowerLabels()
    ensures Lower(Label(Short)) == "short (up to 90 min)"
    ensures Lower(Label(Medium)) == "medium (91-120 min)"
    ensures Lower(Label(Long)) == "long (over 120 min)"
  {
  }

  /** The word the classifier is told to answer with for each length. */
  function LengthWord(l: LengthLabel): string {
    match l
    case Short => "Short"
    case Medium => "Medium"
    case Long => "Long"
  }

  /** Each of the classifier's length words maps onto the label it names. */
  lemma LengthVocabulary(l: LengthLabel)
    ensures MatchLength(LengthWord(l)) == Some(l)
  {
    match l
    case Short => ShortWordFits();
    case Medium => MediumWordFits();
    case Long => LongWordFits();
  }

  lemma ShortWordFits()
    ensures Fits("Short", Short)
  {
    LowerLabels();
    assert Lower("Short") == "short";
    assert OccursAt(Lower(Label(Short)), "short", 0);
  }

  lemma MediumWordFits()
    ensures Fits("Medium", Medium) && !Fits("Medium", Short)
  {
    LowerLabels();
    assert Lower("Medium") == "medium";
    assert OccursAt(Lower(Label(Medium)), "medium", 0);
    MissingCharNotContained(Lower(Label(Short)), "medium", 'e');
  }

  lemma LongWordFits()
    ensures Fits("Long", Long) && !Fits("Long", Short) && !Fits("Long", Medium)
  {
    LowerLabels();
    assert Lower("Long") == "long";
    assert OccursAt(Lower(Label(Long)), "long", 0);
    MissingCharNotContained(Lower(Label(Short)), "long", 'g');
    MissingCharNotContained(Lower(Label(Medium)), "long", 'g');
  }

  /** An empty answer occurs in every label and so picks Short; the classifier's
      "Unknown" occurs in none and leaves the slot unset. */
  lemma LengthFallbacks()
    ensures MatchLength("") == Some(Short)
    ensures MatchLength("Unknown") == None
  {
    EmptyAnswerFits();
    UnknownFitsNothing();
  }

  lemma EmptyAnswerFits()
    ensures Fits("", Short)
  {
    assert OccursAt(Lower(Label(Short)), Lower(""), 0);
  }

  lemma UnknownFitsNothing()
    ensures forall l: LengthLabel :: !Fits("Unknown", l)
  {
    LowerLabels();
    assert Lower("Unknown") == "unknown";
    forall l: LengthLabel
      ensures !Fits("Unknown", l)
    {
      MissingCharNotContained(Lower(Label(l)), "unknown", 'k');
    }
  }

  /** The words the classifier is told to answer with for audience map onto the same flag
      as the button with that text; "Unknown" sets nothing. */
  lemma AudienceVocabulary(adult: bool)
    ensures MatchAudience(AudienceLabel(adult)) == Some(adult)
    ensures MatchAudience("Unknown") == None
  {
    assert Lower("Adults Only") == "adults only";
    assert Lower("All Audiences") == "all audiences";
    assert Lower("Unknown") == "unknown";
    assert OccursAt("adults only", "adult", 0);
    assert OccursAt("all audiences", "all", 0);
    MissingCharNotContained("all audiences", "adult", 't');
    MissingCharNotContained("unknown", "adult", 'a');
    MissingCharNotContained("unknown", "all", 'a');
  }

  /** `str.strip("[]")` removes these. */
  predicate IsBracket(c: char) {
    c == '[' || c == ']'
  }

  /** The pieces of one `genres` cell: brackets stripped, quotes dropped, split on
      commas. */
  function Tokens(cell: string): seq<string> {
    Split(RemoveAll(Trim(cell, IsBracket), '\''), ',')
  }

  /** `g` is the title-cased, stripped form of a non-blank piece of `cell`. */
  ghost predicate IsGenreOf(g: string, cell: string) {
    exists t :: t in Tokens(cell) && Strip(t) != [] && g == Title(Strip(t))
  }

  /** The genre names contributed by some pieces, blank pieces skipped. */
  function PieceGenres(pieces: seq<string>): (r: seq<string>)
    ensures forall g :: g in r <==> exists t :: t in pieces && Strip(t) != [] && g == Title(Strip(t))
    decreases |pieces|
  {
    if |pieces| == 0 then []
    else
      var rest := PieceGenres(pieces[1..]);
      var head := if Strip(pieces[0]) != [] then [Title(Strip(pieces[0]))] else [];
      assert forall t :: t in pieces <==> t == pieces[0] || t in pieces[1..];
      head + rest
  }

  /** The genre names of one cell are exactly those `IsGenreOf` describes. */
  lemma CellGenres(cell: string, g: string)
    ensures g in PieceGenres(Tokens(cell)) <==> IsGenreOf(g, cell)
  {
  }

  /** The genre names of every cell of the column, repeats kept. */
  function ColumnGenres(cells: seq<string>): (r: seq<string>)
    ensures forall g :: g in r <==> exists c :: c in cells && IsGenreOf(g, c)
    decreases |cells|
  {
    if |cells| == 0 then []
    else
      var head := PieceGenres(Tokens(cells[0]));
      var rest := ColumnGenres(cells[1..]);
      assert forall g :: g in head + rest <==> exists c :: c in cells && IsGenreOf(g, c) by {
        forall g
          ensures g in head + rest <==> exists c :: c in cells && IsGenreOf(g, c)
        {
          CellGenres(cells[0], g);
          if exists c :: c in cells && IsGenreOf(g, c) {
            var c :| c in cells && IsGenreOf(g, c);
            if c != cells[0] {
              assert c in cells[1..];
            }
          }
        }
      }
      head + rest
  }

  /** What the handler relies on of `GENRE_OPTIONS`: sorted, hence duplicate-free, and
      made of non-empty names. */
  predicate WellFormedGenres(options: seq<string>) {
    StrictlySorted(options) && forall g <- options :: g != []
  }

  /** `GENRE_OPTIONS`: the sorted set of genre names found in the column. */
  function GenreOptions(cells: seq<string>): (r: seq<string>)
    ensures WellFormedGenres(r)
    ensures forall g :: g in r <==> exists c :: c in cells && IsGenreOf(g, c)
  {
    var r := SortedSet(ColumnGenres(cells));
    assert forall g <- r :: g != [] by {
      forall g <- r
        ensures g != []
      {
        var c :| c in cells && IsGenreOf(g, c);
        var t :| t in Tokens(c) && Strip(t) != [] && g == Title(Strip(t));
      }
    }
    r
  }

  /** Every genre name in the table is already title-cased: a reply equal to a table
      entry is left alone by `Title`. */
  lemma GenreOptionsTitled(cells: seq<string>, g: string)
    requires g in GenreOptions(cells)
    ensures Title(g) == g
  {
    var c :| c in cells && IsGenreOf(g, c);
    var t :| t in Tokens(c) && Strip(t) != [] && g == Title(Strip(t));
    TitleIdempotent(Strip(t));
  }
}
