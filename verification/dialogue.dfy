/** One turn of the chat handler for one conversation: the English-only gate, the intent
    branches, button replies, the classifier merge, the order in which missing slots are
    asked for, and the hand-over to the recommendation step. Every answer of the language
    model arrives as a parameter (`Answers`), so a turn is a pure function. */
module Dialogue {
  import opened Base
  import opened Text
  import opened Options
  import opened Catalog

  /** The slots of one conversation. `genre` holds a name from the genre table, `length`
      a key of the length table, `adult` an audience flag. */
  datatype Session = Session(genre: Option<string>, length: Option<LengthLabel>, adult: Option<bool>)

  /** The session created for an unseen conversation id. */
  const NewSession := Session(None, None, None)

  /** What the language model says during one turn: the lower-cased stripped intent,
      `classify` for genre, length and audience, and the raw mood-genre suggestion before
      its membership check. A failed call is the string `detect_intent` or `classify`
      returns on failure ("unrelated", "Unknown"), and a failed mood call is any answer
      outside the table. */
  datatype Answers = Answers(intent: string, genre: string, length: string, audience: string, mood: string)

  /** The replies a turn can give. */
  datatype Response =
    | EnglishOnly
    | Redirect
    | Greeting
    | AskGenre
    | AskLength
    | AskAdult
    | NoMatches
    | Recommendations(pick: Recommendation)

  /** The reply text of each fixed response; the movie cards are not modelled. The long
      texts are written in two parts, which keeps their first characters cheap for
      the verifier to read. */
  function FixedText(resp: Response): (r: Option<string>)
    ensures r.None? <==> resp.Recommendations?
  {
    match resp
    case EnglishOnly => Some("\U{274C} English only please.")
    case Redirect => Some("\U{1F916} I'm h" + "ere to help you discover great movies. Tell me how you're feeling or what you're in the mood for!")
    case Greeting => Some("\U{1F44B} Hey! " + "I'm here to help you find the perfect movie. What's your vibe today?")
    case AskGenre => Some("[[ASK_GENRE]]")
    case AskLength => Some("[[ASK_LENGTH]]")
    case AskAdult => Some("[[ASK_ADULT]]")
    case NoMatches => Some("\U{1F615} No mo" + "vies found for your preferences. Try another combo.")
    case Recommendations(_) => None
  }

  /** The fixed replies are told apart by their text alone: no two fixed responses share
      a text, so a client can react to the `[[ASK_...]]` markers. */
  lemma FixedTextsDistinct(a: Response, b: Response)
    requires FixedText(a).Some? && FixedText(a) == FixedText(b)
    ensures a == b
  {
    SeventhChar(a);
    SeventhChar(b);
  }

  /** The seventh character of each fixed reply, which differs between all of them. */
  function Marker(resp: Response): char {
    match resp
    case EnglishOnly => 'i'
    case Redirect => 'h'
    case Greeting => ' '
    case AskGenre => 'G'
    case AskLength => 'L'
    case AskAdult => 'A'
    case NoMatches => 'o'
    case Recommendations(_) => '*'
  }

  lemma SeventhChar(resp: Response)
    requires FixedText(resp).Some?
    ensures |FixedText(resp).value| > 6 && FixedText(resp).value[6] == Marker(resp)
  {
    var t := FixedText(resp).value;
    match resp
    case EnglishOnly => assert t[6] == "\U{274C} English only please."[6];
    case Redirect =>
    case Greeting =>
    case AskGenre =>
    case AskLength =>
    case AskAdult =>
    case NoMatches =>
  }

  /** A character the English check accepts: `[\x00-\x7F\s.,!?'"-]`. The listed
      punctuation is already ASCII. */
  predicate EnglishChar(c: char) {
    c as int <= 0x7F || IsSpace(c)
  }

  /** `is_english`: the text is non-empty and every character is ASCII or whitespace. */
  predicate IsEnglish(text: string) {
    |text| > 0 && forall i | 0 <= i < |text| :: EnglishChar(text[i])
  }

  /** What `re.match(r'^[...]+$', text)` accepts, read literally: a non-empty run of
      class characters from the start, then the end of the text or a final newline
      (Python's `$` also matches just before a trailing newline). */
  ghost predicate RegexAccepts(text: string) {
    exists k | 1 <= k <= |text| ::
      && ClassPrefix(text, k)
      && (k == |text| || (k == |text| - 1 && text[k] == '\n'))
  }

  /** The first `k` characters are all in the class. */
  ghost predicate ClassPrefix(text: string, k: nat)
    requires k <= |text|
  {
    forall i | 0 <= i < k :: EnglishChar(text[i])
  }

  /** The trailing-newline allowance of `$` changes nothing, because a newline is in the
      class: `IsEnglish` is exactly the regex. */
  lemma IsEnglishIsRegex(text: string)
    ensures IsEnglish(text) <==> RegexAccepts(text)
  {
    if IsEnglish(text) {
      assert ClassPrefix(text, |text|);
    }
    if RegexAccepts(text) {
      var k :| 1 <= k <= |text| && ClassPrefix(text, k)
        && (k == |text| || (k == |text| - 1 && text[k] == '\n'));
      forall i | 0 <= i < |text|
        ensures EnglishChar(text[i])
      {
        if i >= k {
          assert text[i] == '\n';
        }
      }
    }
  }

  /** Python truthiness of the genre slot: `not session["genre"]` also holds of "". */
  predicate Truthy(genre: Option<string>) {
    genre.Some? && genre.value != []
  }

  /** All three slots are set, so the handler goes on to filter. */
  predicate Complete(s: Session) {
    Truthy(s.genre) && s.length.Some? && s.adult.Some?
  }

  /** The genre slot holds nothing or a name from the table. The length and audience
      slots are in their domains by their types. */
  predicate InDomain(s: Session, options: seq<string>) {
    s.genre.None? || s.genre.value in options
  }

  /** `suggest_genre_by_mood` after its membership check: the suggestion if it is in the
      table. */
  function MoodGenre(options: seq<string>, suggestion: string): (r: Option<string>)
    ensures r.Some? <==> suggestion in options
    ensures r.Some? ==> r.value == suggestion
  {
    if suggestion in options then Some(suggestion) else None
  }

  /** The genre a turn learns from the model: the classifier's answer when it is in the
      table, else a truthy mood suggestion, else nothing. Only the mood suggestion is
      tested for truthiness. */
  function InferGenre(options: seq<string>, answers: Answers): (r: Option<string>)
    ensures r.Some? ==> r.value in options
    ensures answers.genre in options ==> r == Some(answers.genre)
    ensures answers.genre !in options ==>
      (r.Some? <==> answers.mood in options && answers.mood != [])
    ensures answers.genre !in options && r.Some? ==> r.value == answers.mood
  {
    if answers.genre in options then Some(answers.genre)
    else
      match MoodGenre(options, answers.mood)
      case Some(g) => if g != [] then Some(g) else None
      case None => None
  }

  /** The greeting branch: the genre slot is overwritten with whatever the model
      suggests, set or not; nothing else changes. */
  function Greet(s: Session, options: seq<string>, answers: Answers): (r: Session)
    ensures r.length == s.length && r.adult == s.adult
    ensures r.genre == s.genre || (r.genre.Some? && r.genre.value in options)
    ensures InferGenre(options, answers).Some? ==> r.genre == InferGenre(options, answers)
    ensures InferGenre(options, answers).None? ==> r == s
  {
    match InferGenre(options, answers)
    case Some(g) => s.(genre := Some(g))
    case None => s
  }

  /** Button replies: the message is matched exactly against the genre table, then the
      length table, then the audience table, and the first match sets that slot. */
  function PressButton(s: Session, msg: string, options: seq<string>): (r: Session)
    ensures msg in options ==> r == s.(genre := Some(msg))
    ensures msg !in options && LengthOption(msg).Some? ==> r == s.(length := LengthOption(msg))
    ensures msg !in options && LengthOption(msg).None? && AudienceOption(msg).Some? ==>
      r == s.(adult := AudienceOption(msg))
    ensures msg !in options && LengthOption(msg).None? && AudienceOption(msg).None? ==> r == s
  {
    if msg in options then s.(genre := Some(msg))
    else match LengthOption(msg)
      case Some(l) => s.(length := Some(l))
      case None =>
        match AudienceOption(msg)
        case Some(b) => s.(adult := Some(b))
        case None => s
  }

  /** The classifier merge: each slot that is still unset is filled from the model's
      answer for it, in the order genre, length, audience; a slot already set is kept. */
  function Merge(s: Session, options: seq<string>, answers: Answers): (r: Session)
    ensures Truthy(s.genre) ==> r.genre == s.genre
    ensures !Truthy(s.genre) && InferGenre(options, answers).Some? ==> r.genre == InferGenre(options, answers)
    ensures !Truthy(s.genre) && InferGenre(options, answers).None? ==> r.genre == s.genre
    ensures s.length.Some? ==> r.length == s.length
    ensures s.length.None? ==> r.length == MatchLength(answers.length)
    ensures s.adult.Some? ==> r.adult == s.adult
    ensures s.adult.None? ==> r.adult == MatchAudience(answers.audience)
  {
    var g := if Truthy(s.genre) then s.genre
      else match InferGenre(options, answers)
        case Some(x) => Some(x)
        case None => s.genre;
    var l := if s.length.Some? then s.length else MatchLength(answers.length);
    var a := if s.adult.Some? then s.adult else MatchAudience(answers.audience);
    Session(g, l, a)
  }

  /** The reply for slots after the merge: ask for the first missing slot in the order
      genre, length, audience, or filter once all three are set. */
  function Conclude(s: Session, movies: seq<Movie>): (r: Response)
    ensures r == AskGenre <==> !Truthy(s.genre)
    ensures r == AskLength <==> Truthy(s.genre) && s.length.None?
    ensures r == AskAdult <==> Truthy(s.genre) && s.length.Some? && s.adult.None?
    ensures r.NoMatches? || r.Recommendations? <==> Complete(s)
    ensures r.NoMatches? <==> Complete(s) && forall m <- movies :: !Admits(m, s.genre.value, s.length.value, s.adult.value)
    ensures r.Recommendations? ==> Complete(s) && Some(r.pick) == Recommend(movies, s.genre.value, s.length.value, s.adult.value)
  {
    if !Truthy(s.genre) then AskGenre
    else if s.length.None? then AskLength
    else if s.adult.None? then AskAdult
    else match Recommend(movies, s.genre.value, s.length.value, s.adult.value)
      case None => NoMatches
      case Some(p) => Recommendations(p)
  }

  /** The body of the handler after the English check, for a message the check passed. */
  function Respond(s: Session, msg: string, options: seq<string>, movies: seq<Movie>, answers: Answers): (r: (Session, Response))
  {
    if answers.intent == "unrelated" then (s, Redirect)
    else if answers.intent == "greeting" then (Greet(s, options, answers), Greeting)
    else
      var s' := Merge(PressButton(s, msg, options), options, answers);
      (s', Conclude(s', movies))
  }

  /** One turn: the new slots and the reply. */
  function Turn(s: Session, msg: string, options: seq<string>, movies: seq<Movie>, answers: Answers): (r: (Session, Response))
    // The English gate: a rejected message changes nothing.
    ensures r.1 == EnglishOnly <==> !IsEnglish(msg)
    ensures !IsEnglish(msg) ==> r.0 == s
    // The unrelated intent: a fixed redirect, slots untouched.
    ensures r.1 == Redirect <==> IsEnglish(msg) && answers.intent == "unrelated"
    ensures r.1 == Redirect ==> r.0 == s
    // The greeting: a fixed reply; only the genre may change, and only to a table name.
    ensures r.1 == Greeting <==> IsEnglish(msg) && answers.intent == "greeting"
    ensures r.1 == Greeting ==> r.0.length == s.length && r.0.adult == s.adult
    ensures r.1 == Greeting ==> r.0.genre == s.genre || (r.0.genre.Some? && r.0.genre.value in options)
    ensures r.1 == Greeting && InferGenre(options, answers).Some? ==> r.0.genre == InferGenre(options, answers)
    ensures r.1 == Greeting && InferGenre(options, answers).None? ==> r.0 == s
    // Slots stay in their domains and are never cleared.
    ensures InDomain(s, options) ==> InDomain(r.0, options)
    ensures s.genre.Some? ==> r.0.genre.Some?
    ensures Truthy(s.genre) && [] !in options ==> Truthy(r.0.genre)
    ensures s.length.Some? ==> r.0.length.Some?
    ensures s.adult.Some? ==> r.0.adult.Some?
    // The ask order, and filtering only with all slots set.
    ensures r.1 == AskGenre ==> !Truthy(r.0.genre)
    ensures r.1 == AskLength ==> Truthy(r.0.genre) && r.0.length.None?
    ensures r.1 == AskAdult ==> Truthy(r.0.genre) && r.0.length.Some? && r.0.adult.None?
    ensures r.1.NoMatches? || r.1.Recommendations? ==> Complete(r.0)
  {
    if !IsEnglish(msg) then (s, EnglishOnly)
    else Respond(s, msg, options, movies, answers)
  }

  /** A turn that neither is rejected nor is an unrelated message or a greeting goes
      through buttons, the merge and the ask order: the reply asks for exactly the first
      missing slot, or filters once the slots are complete. */
  lemma SlotFillingReply(s: Session, msg: string, options: seq<string>, movies: seq<Movie>, answers: Answers)
    requires IsEnglish(msg) && answers.intent != "unrelated" && answers.intent != "greeting"
    ensures var r := Turn(s, msg, options, movies, answers);
      && (r.1 == AskGenre <==> !Truthy(r.0.genre))
      && (r.1 == AskLength <==> Truthy(r.0.genre) && r.0.length.None?)
      && (r.1 == AskAdult <==> Truthy(r.0.genre) && r.0.length.Some? && r.0.adult.None?)
      && (r.1.NoMatches? <==>
            (Complete(r.0) && forall m <- movies :: !Admits(m, r.0.genre.value, r.0.length.value, r.0.adult.value)))
      && (r.1.Recommendations? <==>
            (Complete(r.0) && exists m <- movies :: Admits(m, r.0.genre.value, r.0.length.value, r.0.adult.value)))
  {
  }

  /** A button reply that names a genre sets the genre slot to it; one that names a
      length label sets the length; one that names an audience sets the flag. Each is
      tried only when the earlier tables do not match, and the merge never overwrites the
      slot the button set. */
  lemma ButtonReply(s: Session, msg: string, options: seq<string>, movies: seq<Movie>, answers: Answers)
    requires IsEnglish(msg) && answers.intent != "unrelated" && answers.intent != "greeting"
    ensures msg in options ==> Turn(s, msg, options, movies, answers).0.genre == Some(msg)
    ensures msg !in options && LengthOption(msg).Some? ==>
      Turn(s, msg, options, movies, answers).0.length == LengthOption(msg)
    ensures msg !in options && LengthOption(msg).None? && AudienceOption(msg).Some? ==>
      Turn(s, msg, options, movies, answers).0.adult == AudienceOption(msg)
  {
  }

  /** When the length slot is unset and the message is not a length button, the turn
      leaves it as the first label (Short, Medium, Long) whose lower-cased text contains
      the lower-cased classifier answer, or unset. When the audience slot is unset and
      the message is not an audience button, it becomes true on "adult", else false on
      "all", else stays unset. */
  lemma ClassifierFill(s: Session, msg: string, options: seq<string>, movies: seq<Movie>, answers: Answers)
    requires IsEnglish(msg) && answers.intent != "unrelated" && answers.intent != "greeting"
    ensures s.length.None? && (msg in options || LengthOption(msg).None?) ==>
      forall l: LengthLabel :: Turn(s, msg, options, movies, answers).0.length == Some(l) <==>
        Fits(answers.length, l) && forall e: LengthLabel :: Rank(e) < Rank(l) ==> !Fits(answers.length, e)
    ensures s.adult.None? && (msg in options || LengthOption(msg).Some? || AudienceOption(msg).None?) ==>
      var a := Turn(s, msg, options, movies, answers).0.adult;
      && (a == Some(true) <==> Contains(Lower(answers.audience), "adult"))
      && (a == Some(false) <==> !Contains(Lower(answers.audience), "adult") && Contains(Lower(answers.audience), "all"))
  {
  }

  /** A greeting is not read-only: when the classifier names a table genre, the greeting
      turn fills the genre slot of an empty session. */
  lemma GreetingCanSetGenre()
    ensures var r := Turn(NewSession, "hi", ["Comedy"], [], Answers("greeting", "Comedy", "", "", ""));
      r.1 == Greeting && r.0 == Session(Some("Comedy"), None, None)
  {
    assert IsEnglish("hi");
  }

  /** A greeting also overwrites a genre that is already set: the classifier's table
      genre replaces it, and the other slots stay as they were. */
  lemma GreetingOverwritesGenre()
    ensures var r := Turn(Session(Some("Drama"), None, None), "hi", ["Comedy", "Drama"], [],
        Answers("greeting", "Comedy", "", "", ""));
      r.1 == Greeting && r.0 == Session(Some("Comedy"), None, None)
  {
    assert IsEnglish("hi");
  }
}
