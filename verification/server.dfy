/** The handler around one turn: reducing the request to the last user message and a
    conversation id, the process-wide session map (`SESSIONS`), and the genre table built
    once from the catalog. Transport (routing, JSON, CORS) is not modelled. */
module Server {
  import opened Base
  import opened Text
  import opened Options
  import opened Catalog
  import opened Dialogue

  /** One chat message of the request body. */
  datatype Message = Message(role: string, content: string)

  /** The request body: its `messages` list and its optional `session_id`. */
  datatype Request = Request(messages: seq<Message>, sessionId: Option<string>)

  /** The conversation id used when the request carries none. */
  const DefaultSessionId: string := "default"

  /** The content of the last message whose role is "user", or "" when there is none. */
  function LastUserContent(messages: seq<Message>): (r: string)
    ensures (forall i | 0 <= i < |messages| :: messages[i].role != "user") ==> r == ""
    ensures forall i | 0 <= i < |messages| && messages[i].role == "user" ::
      (forall j | i < j < |messages| :: messages[j].role != "user") ==> r == messages[i].content
    decreases |messages|
  {
    if |messages| == 0 then ""
    else if messages[|messages| - 1].role == "user" then messages[|messages| - 1].content
    else
      var front := messages[..|messages| - 1];
      assert forall i | 0 <= i < |front| :: front[i] == messages[i];
      LastUserContent(front)
  }

  /** The message a turn works on: the last user message, stripped. */
  function UserMessage(req: Request): string {
    Strip(LastUserContent(req.messages))
  }

  function SessionKey(req: Request): string {
    req.sessionId.GetOr(DefaultSessionId)
  }

  /** What the handler reads but never writes: the catalog and the genre table. */
  datatype Service = Service(movies: seq<Movie>, options: seq<string>)

  /** The `genres` column of the catalog. */
  function GenreColumn(movies: seq<Movie>): seq<string> {
    seq(|movies|, i requires 0 <= i < |movies| => movies[i].genres)
  }

  /** Start-up: the genre table is parsed from the catalog's own genre column. */
  function Load(movies: seq<Movie>): (svc: Service)
    ensures svc.movies == movies
    ensures WellFormedGenres(svc.options)
    ensures forall g :: g in svc.options <==> exists m <- movies :: IsGenreOf(g, m.genres)
  {
    var cells := GenreColumn(movies);
    assert forall c :: c in cells <==> exists m <- movies :: c == m.genres by {
      forall c
        ensures c in cells <==> exists m <- movies :: c == m.genres
      {
        if c in cells {
          var i :| 0 <= i < |cells| && cells[i] == c;
          assert movies[i] in movies;
        }
        if exists m <- movies :: c == m.genres {
          var m :| m in movies && c == m.genres;
          var i :| 0 <= i < |movies| && movies[i] == m;
          assert cells[i] == c;
        }
      }
    }
    Service(movies, GenreOptions(cells))
  }

  /** The session map, keyed by conversation id. */
  type Store = map<string, Session>

  /** Every stored genre slot is empty or a name from the table. */
  predicate StoreInDomain(store: Store, options: seq<string>) {
    forall k | k in store :: InDomain(store[k], options)
  }

  /** The session a request works on: the stored one, or a new one. */
  function Current(store: Store, key: string): Session {
    if key in store then store[key] else NewSession
  }

  /** One request. A message failing the English check is answered before any session is
      looked up, so the map is untouched; otherwise the session is created if missing,
      and after the turn the map holds its new slots and nothing else changes. */
  function Chat(svc: Service, store: Store, req: Request, answers: Answers): (r: (Store, Response))
    ensures !IsEnglish(UserMessage(req)) ==> r == (store, EnglishOnly)
    ensures IsEnglish(UserMessage(req)) ==> r.0.Keys == store.Keys + {SessionKey(req)}
    ensures forall k | k in store && k != SessionKey(req) :: k in r.0 && r.0[k] == store[k]
    ensures IsEnglish(UserMessage(req)) ==>
      (r.0[SessionKey(req)], r.1) == Turn(Current(store, SessionKey(req)), UserMessage(req), svc.options, svc.movies, answers)
    ensures StoreInDomain(store, svc.options) ==> StoreInDomain(r.0, svc.options)
  {
    var msg := UserMessage(req);
    if !IsEnglish(msg) then (store, EnglishOnly)
    else
      var key := SessionKey(req);
      var t := Turn(Current(store, key), msg, svc.options, svc.movies, answers);
      (store[key := t.0], t.1)
  }

  /** `after` keeps every slot that `before` had set. */
  predicate KeepsSlots(before: Session, after: Session) {
    && (before.genre.Some? ==> after.genre.Some?)
    && (before.length.Some? ==> after.length.Some?)
    && (before.adult.Some? ==> after.adult.Some?)
  }

  /** The requests of a conversation history, each with the model's answers for it. */
  datatype Step = Step(req: Request, answers: Answers)

  /** The session map after a history of requests, in arrival order. */
  function Replay(svc: Service, store: Store, steps: seq<Step>): Store
    decreases |steps|
  {
    if |steps| == 0 then store
    else Replay(svc, Chat(svc, store, steps[0].req, steps[0].answers).0, steps[1..])
  }

  /** Over any history: no session is ever removed, no set slot is ever cleared, and
      every stored genre stays in the table. */
  lemma {:induction false} ReplayInvariant(svc: Service, store: Store, steps: seq<Step>)
    ensures store.Keys <= Replay(svc, store, steps).Keys
    ensures forall k | k in store :: KeepsSlots(store[k], Replay(svc, store, steps)[k])
    ensures StoreInDomain(store, svc.options) ==> StoreInDomain(Replay(svc, store, steps), svc.options)
    decreases |steps|
  {
    if |steps| > 0 {
      var next := Chat(svc, store, steps[0].req, steps[0].answers).0;
      assert store.Keys <= next.Keys;
      assert forall k | k in store :: KeepsSlots(store[k], next[k]) by {
        forall k | k in store
          ensures KeepsSlots(store[k], next[k])
        {
          if k == SessionKey(steps[0].req) && IsEnglish(UserMessage(steps[0].req)) {
            assert Current(store, k) == store[k];
          }
        }
      }
      ReplayInvariant(svc, next, steps[1..]);
    }
  }
}
