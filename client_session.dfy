/** `ClientSession` (`frontend/app.js`): the game set the client is logged into and the
    caches tied to it. */
module ClientSession {
  import opened Results
  import opened Schemas
  import Text
  import ClientText
  import ClientImages
  import GameSetRouter
  import Deps

  /** The name `setGameSet` keeps: trimmed and upper-cased. */
  function NormalizeGameSet(name: Option<string>): string {
    Text.Upper(Text.Strip(Text.JavaScript, ClientText.OrEmpty(name)))
  }

  /** `api` refuses to call the server without a game set; otherwise it sends the game
      set as the `X-Game-Set` header. */
  function GameSetHeader(gameSet: string): Option<string> {
    if gameSet == "" then None else Some(gameSet)
  }

  /** Normalizing is idempotent, and the normalized name is trimmed, as long as the input
      stripped, and empty exactly for a blank input. */
  lemma NormalizeGameSetProps(name: Option<string>)
    ensures NormalizeGameSet(Some(NormalizeGameSet(name))) == NormalizeGameSet(name)
    ensures Text.Trimmed(Text.JavaScript, NormalizeGameSet(name))
    ensures |NormalizeGameSet(name)| == |Text.Strip(Text.JavaScript, ClientText.OrEmpty(name))|
    ensures NormalizeGameSet(name) == "" <==> Text.AllSpace(Text.JavaScript, ClientText.OrEmpty(name))
  {
    var s := Text.Strip(Text.JavaScript, ClientText.OrEmpty(name));
    Text.UpperKeepsTrimmed(Text.JavaScript, s);
    Text.StripTrimmed(Text.JavaScript, Text.Upper(s));
    Text.UpperIdempotent(s);
  }

  /** `doLoginSubmit`: the name the login goes on with. It is the normalized name when its
      `.length` is six; otherwise the login stops with "Login must be exactly 6
      characters." `.length` counts UTF-16 code units (`ClientText.JsLength`). */
  function LoginName(name: Option<string>): Option<string> {
    var n := NormalizeGameSet(name);
    if ClientText.JsLength(n) != 6 then None else Some(n)
  }

  /** The login flow: normalize, require a `.length` of six, ask the router to create the
      name, then send it as the header. The server's header check passes exactly for six
      characters. For a name the login lets through, the header passes exactly when every
      character lies in the Basic Multilingual Plane. The router accepts it exactly when,
      in addition, it has no Python whitespace at either end (the separators U+001C to
      U+001F survive `trim()`), and then it routes the very game set the header names. */
  lemma HeaderAgreesWithRouter(name: Option<string>)
    ensures Deps.ValidateGameSet(GameSetHeader(NormalizeGameSet(name))).Ok? <==> |NormalizeGameSet(name)| == 6
    ensures LoginName(name).Some? <==> ClientText.JsLength(NormalizeGameSet(name)) == 6
    ensures LoginName(name).Some? ==>
              (Deps.ValidateGameSet(GameSetHeader(LoginName(name).value)).Ok? <==>
                 ClientText.InBmp(LoginName(name).value))
    ensures LoginName(name).Some? ==>
              (GameSetRouter.ValidateGameSetName(LoginName(name).value).Ok? <==>
                 ClientText.InBmp(LoginName(name).value) && Text.Trimmed(Text.Python, LoginName(name).value))
    ensures LoginName(name).Some? && GameSetRouter.ValidateGameSetName(LoginName(name).value).Ok? ==>
              GameSetRouter.ValidateGameSetName(LoginName(name).value).value == LoginName(name).value &&
              Deps.ValidateGameSet(GameSetHeader(LoginName(name).value)) == Ok(LoginName(name).value)
  {
    var n := NormalizeGameSet(name);
    ClientText.JsLengthCounts(n);
    if ClientText.JsLength(n) == 6 {
      if ClientText.InBmp(n) {
        RouterKeepsSixChars(n);
      } else {
        Text.StripIsInfix(Text.Python, n);
      }
    }
  }

  /** A six-character name strips to itself under `strip()` exactly when it is trimmed. */
  lemma RouterKeepsSixChars(n: string)
    requires |n| == 6
    ensures GameSetRouter.ValidateGameSetName(n).Ok? <==> Text.Trimmed(Text.Python, n)
    ensures GameSetRouter.ValidateGameSetName(n).Ok? ==> GameSetRouter.ValidateGameSetName(n).value == n
  {
    var r := Text.Strip(Text.Python, n);
    Text.StripIsInfix(Text.Python, n);
    if |r| == 6 {
      assert r == n[0..6] == n;
    }
    if Text.Trimmed(Text.Python, n) {
      Text.StripTrimmed(Text.Python, n);
    }
  }

  /** A name the login keeps as it is: nothing for `trim()` to drop at either end, and no
      lower-case letter. */
  lemma LoginKeeps(n: string)
    requires Text.Trimmed(Text.JavaScript, n)
    requires forall i | 0 <= i < |n| :: !('a' <= n[i] <= 'z')
    ensures NormalizeGameSet(Some(n)) == n
  {
    Text.StripTrimmed(Text.JavaScript, n);
    assert Text.Upper(n) == n;
  }

  /** Such a name goes on to the server exactly when its `.length` is six. */
  lemma LoginKept(n: string)
    requires Text.Trimmed(Text.JavaScript, n)
    requires forall i | 0 <= i < |n| :: !('a' <= n[i] <= 'z')
    ensures LoginName(Some(n)) == if ClientText.JsLength(n) == 6 then Some(n) else None
  {
    LoginKeeps(n);
  }

  /** A character that is neither JavaScript whitespace nor a lower-case letter, in front
      of a Python-trimmed name without lower-case letters, gives a name the login keeps. */
  lemma ConsKept(c: char, t: string)
    requires !Text.IsSpace(Text.JavaScript, c) && !('a' <= c <= 'z')
    requires t != [] && Text.Trimmed(Text.Python, t)
    requires forall i | 0 <= i < |t| :: !('a' <= t[i] <= 'z')
    ensures Text.Trimmed(Text.JavaScript, [c] + t)
    ensures forall i | 0 <= i < |[c] + t| :: !('a' <= ([c] + t)[i] <= 'z')
  {
    var n := [c] + t;
    assert n[|n| - 1] == t[|t| - 1];
    assert forall i | 0 < i < |n| :: n[i] == t[i - 1];
  }

  /** The login keeps a name with a separator character (1C-1F) before five characters
      of the Basic Multilingual Plane, such as "\U{1C}ABCDE": `trim()` keeps the separator,
      so the name has a `.length` of six and is sent as it is. */
  lemma SeparatorNameKept(c: char, t: string)
    requires '\U{1C}' <= c <= '\U{1F}' && |t| == 5 && Text.Trimmed(Text.Python, t) && ClientText.InBmp(t)
    requires forall i | 0 <= i < |t| :: !('a' <= t[i] <= 'z')
    ensures LoginName(Some([c] + t)) == Some([c] + t) && |[c] + t| == 6
  {
    var n := [c] + t;
    ConsKept(c, t);
    LoginKept(n);
    ClientText.JsLengthCons(c, t);
    ClientText.JsLengthCounts(t);
  }

  /** The router refuses that name: `strip()` drops the separator and leaves five
      characters. */
  lemma SeparatorNameRefused(c: char, t: string)
    requires '\U{1C}' <= c <= '\U{1F}' && |t| == 5 && Text.Trimmed(Text.Python, t)
    ensures GameSetRouter.ValidateGameSetName([c] + t) == Err(GameSetRouter.BadLength)
  {
    assert [c] + t == [c] + t + [];
    Text.StripPadded(Text.Python, [c], t, []);
  }

  /** A character outside the Basic Multilingual Plane, such as U+1F600, counts twice in
      `.length`. With four more characters the login lets the name through as six, yet it
      has five characters, so the router and the header check both refuse it. */
  lemma AstralNameRefused(c: char, t: string)
    requires c as int >= 0x1_0000 && |t| == 4 && Text.Trimmed(Text.Python, t) && ClientText.InBmp(t)
    requires forall i | 0 <= i < |t| :: !('a' <= t[i] <= 'z')
    ensures LoginName(Some([c] + t)) == Some([c] + t)
    ensures GameSetRouter.ValidateGameSetName([c] + t) == Err(GameSetRouter.BadLength)
    ensures Deps.ValidateGameSet(GameSetHeader([c] + t)) == Err(Deps.BadLength)
  {
    var n := [c] + t;
    ConsKept(c, t);
    LoginKept(n);
    ClientText.JsLengthCons(c, t);
    ClientText.JsLengthCounts(t);
    ShortNameRefused(n);
  }

  /** A name of one to five characters is refused by the router and by the header check. */
  lemma ShortNameRefused(n: string)
    requires 0 < |n| < 6
    ensures GameSetRouter.ValidateGameSetName(n) == Err(GameSetRouter.BadLength)
    ensures Deps.ValidateGameSet(GameSetHeader(n)) == Err(Deps.BadLength)
  {
    Text.StripIsInfix(Text.Python, n);
  }

  /** The other way round: with five more characters the login refuses the name for a
      `.length` of seven, although the header check would accept its six characters. */
  lemma AstralNameBlocked(c: char, t: string)
    requires c as int >= 0x1_0000 && |t| == 5 && Text.Trimmed(Text.Python, t) && ClientText.InBmp(t)
    requires forall i | 0 <= i < |t| :: !('a' <= t[i] <= 'z')
    ensures LoginName(Some([c] + t)).None?
    ensures Deps.ValidateGameSet(GameSetHeader([c] + t)) == Ok([c] + t)
  {
    var n := [c] + t;
    ConsKept(c, t);
    LoginKept(n);
    ClientText.JsLengthCons(c, t);
    ClientText.JsLengthCounts(t);
  }

  /** The client's login state: the game set and the template cache that belongs to it. */
  class Session {
    var gameSet: string
    var templatesCache: seq<Id>
    var templatesLoadedAt: int
    var currentTemplateId: Option<Id>
    const images: ClientImages.ImageCache

    /** `gameSet` starts as the stored name, trimmed. */
    constructor (stored: Option<string>, images: ClientImages.ImageCache)
      ensures gameSet == Text.Strip(Text.JavaScript, ClientText.OrEmpty(stored))
      ensures templatesCache == [] && templatesLoadedAt == 0 && currentTemplateId.None?
      ensures this.images == images
    {
      gameSet := Text.Strip(Text.JavaScript, ClientText.OrEmpty(stored));
      templatesCache := [];
      templatesLoadedAt := 0;
      currentTemplateId := None;
      this.images := images;
    }

    /** `setGameSet`: keep the normalized name and drop every cache tied to the old one. */
    method SetGameSet(name: Option<string>)
      modifies this, images
      ensures gameSet == NormalizeGameSet(name)
      ensures templatesCache == [] && templatesLoadedAt == 0 && currentTemplateId.None?
      ensures images.Valid() && images.roundId.None? && images.images == map[]
    {
      gameSet := NormalizeGameSet(name);
      DropCaches();
    }

    /** The caches `setGameSet` drops; the game set itself is kept. */
    method DropCaches()
      modifies this, images
      ensures gameSet == old(gameSet)
      ensures templatesCache == [] && templatesLoadedAt == 0 && currentTemplateId.None?
      ensures images.Valid() && images.roundId.None? && images.images == map[]
    {
      images.Clear();
      templatesCache := [];
      templatesLoadedAt := 0;
      currentTemplateId := None;
    }
  }
}
