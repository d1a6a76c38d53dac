/**
 * backend/helpers.py: the apology page with its memegen-style escaping of
 * the message, the two route decorators that gate a view on the session,
 * and the lookup of the interface strings for the session's language.
 */
module Helpers {
  import opened Strings

  /** A Python value kept in the session or in a row: None, an int or a str. */
  datatype Value = Null | Int(i: int) | Str(s: string)

  /** Flask's session: a dictionary from keys to values. */
  type Session = map<string, Value>

  /** What a route handler hands back to Flask. */
  datatype Response =
    | Redirect(location: string)
      /** render_template of a page that is given no data */
    | Page(template: string)
      /** apology.html rendered with top = code and bottom = the escaped
          message, sent with HTTP status code */
    | ApologyPage(code: int, bottom: string)

  /** `session.get(key)` */
  function Get(session: Session, key: string): Value {
    if key in session then session[key] else Null
  }

  // ----- apology and escape -----

  /** The (pattern, replacement) pairs of escape, in the order they are applied. */
  const EscapeSteps: seq<(string, string)> := [
    ("-", "--"),
    (" ", "-"),
    ("_", "__"),
    ("?", "~q"),
    ("%", "~p"),
    ("#", "~h"),
    ("/", "~s"),
    ("\"", "''")
  ]

  /** What the memegen convention makes of one character. */
  function EscapeChar(c: char): string {
    match c
    case '-' => "--"
    case ' ' => "-"
    case '_' => "__"
    case '?' => "~q"
    case '%' => "~p"
    case '#' => "~h"
    case '/' => "~s"
    case '"' => "''"
    case _ => [c]
  }

  /** The escaped text: each character escaped on its own. */
  function Escaped(s: string): string {
    MapChars(EscapeChar, s)
  }

  /** Escaping, read from the front. */
  lemma EscapedFront(s: string)
    requires s != []
    ensures Escaped(s) == EscapeChar(s[0]) + Escaped(s[1..])
  {
    MapCharsFront(EscapeChar, s);
  }

  predicate NonEmptyPatterns(steps: seq<(string, string)>) {
    forall i :: 0 <= i < |steps| ==> steps[i].0 != []
  }

  /** s after the given replace-all steps, applied first to last. */
  function ApplySteps(steps: seq<(string, string)>, s: string): string
    requires NonEmptyPatterns(steps)
    decreases |steps|
  {
    if steps == [] then s
    else
      var last := steps[|steps| - 1];
      Replace(ApplySteps(steps[..|steps| - 1], s), last.0, last.1)
  }

  predicate OneCharPatterns(steps: seq<(string, string)>) {
    forall i :: 0 <= i < |steps| ==> |steps[i].0| == 1
  }

  /** No replacement contains the pattern of a later step. */
  predicate Untangled(steps: seq<(string, string)>)
    requires OneCharPatterns(steps)
  {
    forall i, j :: 0 <= i < j < |steps| ==> steps[j].0[0] !in steps[i].1
  }

  /** The replacement of the first step whose pattern is c, or c itself. */
  function FirstMatch(steps: seq<(string, string)>, c: char): string
    requires OneCharPatterns(steps)
    decreases |steps|
  {
    if steps == [] then [c]
    else if steps[0].0[0] == c then steps[0].1
    else FirstMatch(steps[1..], c)
  }

  /** Every character of s replaced by its FirstMatch. */
  function SubstEach(steps: seq<(string, string)>, s: string): string
    requires OneCharPatterns(steps)
    decreases |s|
  {
    if s == [] then [] else FirstMatch(steps, s[0]) + SubstEach(steps, s[1..])
  }

  lemma {:induction false} SubstCharAbsent(s: string, x: char, t: string)
    requires x !in s
    ensures SubstChar(s, x, t) == s
    decreases |s|
  {
    if s != [] {
      SubstCharAbsent(s[1..], x, t);
      assert s == [s[0]] + s[1..];
    }
  }

  /** One more step, applied to the output of the earlier ones for a single character. */
  lemma {:induction false} FirstMatchExtend(steps: seq<(string, string)>, c: char)
    requires steps != [] && OneCharPatterns(steps) && Untangled(steps)
    ensures var init, last := steps[..|steps| - 1], steps[|steps| - 1];
            SubstChar(FirstMatch(init, c), last.0[0], last.1) == FirstMatch(steps, c)
    decreases |steps|
  {
    var init, last := steps[..|steps| - 1], steps[|steps| - 1];
    if init == [] {
      assert steps == [last];
      assert SubstChar([c], last.0[0], last.1) == (if c == last.0[0] then last.1 else [c]) + SubstChar([], last.0[0], last.1);
    } else if init[0].0[0] == c {
      assert last.0[0] !in init[0].1 by {
        assert steps[0] == init[0];
      }
      SubstCharAbsent(init[0].1, last.0[0], last.1);
    } else {
      var rest := steps[1..];
      assert rest[..|rest| - 1] == init[1..];
      assert rest[|rest| - 1] == last;
      FirstMatchExtend(rest, c);
    }
  }

  lemma {:induction false} SubstEachExtend(steps: seq<(string, string)>, s: string)
    requires steps != [] && OneCharPatterns(steps) && Untangled(steps)
    ensures var init, last := steps[..|steps| - 1], steps[|steps| - 1];
            SubstChar(SubstEach(init, s), last.0[0], last.1) == SubstEach(steps, s)
    decreases |s|
  {
    var init, last := steps[..|steps| - 1], steps[|steps| - 1];
    if s != [] {
      SubstCharConcat(FirstMatch(init, s[0]), SubstEach(init, s[1..]), last.0[0], last.1);
      FirstMatchExtend(steps, s[0]);
      SubstEachExtend(steps, s[1..]);
    }
  }

  /**
   * Replace-all steps with one-character patterns, none of whose
   * replacements holds a later pattern, act character by character.
   */
  lemma {:induction false} StepsArePerCharacter(steps: seq<(string, string)>, s: string)
    requires OneCharPatterns(steps) && Untangled(steps)
    ensures NonEmptyPatterns(steps)
    ensures ApplySteps(steps, s) == SubstEach(steps, s)
    decreases |steps|
  {
    if steps == [] {
      SubstEachEmpty(s);
    } else {
      var init, last := steps[..|steps| - 1], steps[|steps| - 1];
      StepsArePerCharacter(init, s);
      assert last.0 == [last.0[0]];
      ReplaceOneChar(ApplySteps(init, s), last.0[0], last.1);
      SubstEachExtend(steps, s);
    }
  }

  lemma {:induction false} SubstEachEmpty(s: string)
    ensures SubstEach([], s) == s
    decreases |s|
  {
    if s != [] {
      SubstEachEmpty(s[1..]);
      assert s == [s[0]] + s[1..];
    }
  }

  lemma EscapeStepsShape()
    ensures OneCharPatterns(EscapeSteps) && Untangled(EscapeSteps)
  {
  }

  lemma EscapeStepsPerChar(c: char)
    ensures OneCharPatterns(EscapeSteps)
    ensures FirstMatch(EscapeSteps, c) == EscapeChar(c)
  {
  }

  lemma {:induction false} EscapeStepsAreEscaped(s: string)
    ensures OneCharPatterns(EscapeSteps)
    ensures SubstEach(EscapeSteps, s) == Escaped(s)
    decreases |s|
  {
    if s != [] {
      EscapeStepsPerChar(s[0]);
      EscapeStepsAreEscaped(s[1..]);
      EscapedFront(s);
    }
  }

  /** escape: the eight replace-all steps, in order, give the per-character escaping. */
  method Escape(message: string) returns (s: string)
    ensures s == Escaped(message)
  {
    EscapeStepsShape();
    StepsArePerCharacter(EscapeSteps, message);
    s := message;
    for i := 0 to |EscapeSteps|
      invariant s == ApplySteps(EscapeSteps[..i], message)
    {
      var (pattern, replacement) := EscapeSteps[i];
      s := Replace(s, pattern, replacement);
      assert EscapeSteps[..i + 1][..i] == EscapeSteps[..i];
    }
    assert EscapeSteps[..|EscapeSteps|] == EscapeSteps;
    EscapeStepsAreEscaped(message);
  }

  /** apology: the apology page with the escaped message, sent with the given status. */
  method Apology(message: string, code: int := 400) returns (r: Response)
    ensures r == ApologyPage(code, Escaped(message))
  {
    var bottom := Escape(message);
    r := ApologyPage(code, bottom);
  }
  /** The characters escape rewrites. */
  const Specials: string := "- _?%#/\""

  /** The escaped text holds no space, `?`, `%`, `#`, `/` or `"`, and is at least as long as the message. */
  lemma {:induction false} EscapedAvoids(s: string)
    ensures ' ' !in Escaped(s) && '?' !in Escaped(s) && '%' !in Escaped(s)
    ensures '#' !in Escaped(s) && '/' !in Escaped(s) && '"' !in Escaped(s)
    ensures |Escaped(s)| >= |s|
    decreases |s|
  {
    if s != [] {
      EscapedAvoids(s[1..]);
      EscapedFront(s);
    }
  }

  /** A message with none of the eight special characters is shown as it is. */
  lemma {:induction false} EscapedPlain(s: string)
    requires forall i :: 0 <= i < |s| ==> s[i] !in Specials
    ensures Escaped(s) == s
    decreases |s|
  {
    if s != [] {
      EscapedPlain(s[1..]);
      EscapedFront(s);
      assert s == [s[0]] + s[1..];
    }
  }

  /** Had spaces been mapped before hyphens were doubled, a space would come out as `--`. */
  lemma HyphensBeforeSpaces()
    ensures NonEmptyPatterns([(" ", "-"), ("-", "--")])
    ensures ApplySteps([(" ", "-"), ("-", "--")], " ") == "--"
    ensures Escaped(" ") == "-" && Escaped("-") == "--"
  {
    var swapped := [(" ", "-"), ("-", "--")];
    assert swapped[..1] == [(" ", "-")] && swapped[..1][..0] == [];
    assert Replace(" ", " ", "-") == "-" + Replace("", " ", "-");
    assert Replace("-", "-", "--") == "--" + Replace("", "-", "--");
  }

  // ----- login_required and admin_required -----

  const LoginPath: string := "/df/login"
  const AdminOnly: string := "Access denied. Admin privileges required."

  /** `session.get("user_id") is not None` */
  predicate LoggedIn(session: Session) {
    Get(session, "user_id") != Null
  }

  /** `session.get("role") == "admin"` */
  predicate IsAdmin(session: Session) {
    Get(session, "role") == Str("admin")
  }

  /**
   * login_required(view) called with args: without a user_id the visitor is
   * sent to the login page, otherwise the view answers.
   */
  function LoginRequired<A>(view: A -> Response, session: Session, args: A): (r: Response)
    ensures !LoggedIn(session) ==> r == Redirect(LoginPath)
    ensures LoggedIn(session) ==> r == view(args)
  {
    if Get(session, "user_id") == Null then Redirect("/df/login")
    else view(args)
  }

  /**
   * admin_required(view) called with args: login is checked first, then the
   * role; a logged-in user who is not an admin gets a 403 apology.
   */
  function AdminRequired<A>(view: A -> Response, session: Session, args: A): (r: Response)
    ensures !LoggedIn(session) ==> r == Redirect(LoginPath)
    ensures LoggedIn(session) && !IsAdmin(session) ==> r == ApologyPage(403, Escaped(AdminOnly))
    ensures LoggedIn(session) && IsAdmin(session) ==> r == view(args)
  {
    if Get(session, "user_id") == Null then Redirect("/df/login")
    else if Get(session, "role") != Str("admin") then ApologyPage(403, Escaped("Access denied. Admin privileges required."))
    else view(args)
  }

  /** The answer depends on the view only for a logged-in visitor: nobody else reaches it. */
  lemma OnlyLoggedInReachView<A>(view: A -> Response, other: A -> Response, session: Session, args: A)
    requires LoginRequired(view, session, args) != LoginRequired(other, session, args)
    ensures LoggedIn(session)
  {
  }

  /** The answer depends on the view only for a logged-in admin. */
  lemma OnlyAdminsReachView<A>(view: A -> Response, other: A -> Response, session: Session, args: A)
    requires AdminRequired(view, session, args) != AdminRequired(other, session, args)
    ensures LoggedIn(session) && IsAdmin(session)
  {
  }

  /** admin_required is login_required around a role check. */
  lemma AdminGateIsLoginGateFirst<A>(view: A -> Response, session: Session, args: A)
    ensures AdminRequired(view, session, args)
         == LoginRequired((x: A) => if IsAdmin(session) then view(x) else ApologyPage(403, Escaped(AdminOnly)), session, args)
  {
  }

  // ----- get_translations -----

  const English: map<string, string> := map[
    "upload" := "Upload",
    "history" := "History",
    "settings" := "Settings",
    "project_number" := "Project Number",
    "project_manager" := "Project Manager",
    "reason" := "Reason",
    "description" := "Description",
    "save" := "Save",
    "choose_language" := "Choose Language"
  ]

  const Turkish: map<string, string> := map[
    "upload" := "Yükle",
    "history" := "Geçmiş",
    "settings" := "Ayarlar",
    "project_number" := "Proje Numarası",
    "project_manager" := "Proje Yöneticisi",
    "reason" := "Sebep",
    "description" := "Açıklama",
    "save" := "Kaydet",
    "choose_language" := "Dil Seçiniz"
  ]

  const Spanish: map<string, string> := map[
    "upload" := "Subir",
    "history" := "Historial",
    "settings" := "Configuración",
    "project_number" := "Número de Proyecto",
    "project_manager" := "Gerente del Proyecto",
    "reason" := "Razón",
    "description" := "Descripción",
    "save" := "Guardar",
    "choose_language" := "Seleccionar Idioma"
  ]

  /** The translation dictionary, by language code. */
  const Translations: map<string, map<string, string>> := map["en" := English, "tr" := Turkish, "es" := Spanish]

  /** Every language defines exactly the keys English defines. */
  lemma TranslationsAgree()
    ensures forall lang :: lang in Translations ==> Translations[lang].Keys == English.Keys
  {
  }

  /**
   * get_translations: the table of the session's language, English when no
   * language is set or the language is unknown; so it always has every key.
   */
  function GetTranslations(session: Session): (table: map<string, string>)
    ensures table in Translations.Values
    ensures table.Keys == English.Keys
    ensures "language" !in session ==> table == English
    ensures forall lang :: Get(session, "language") == Str(lang) && lang in Translations ==> table == Translations[lang]
    ensures (forall lang :: Get(session, "language") == Str(lang) ==> lang !in Translations) ==> table == English
  {
    TranslationsAgree();
    var lang := if "language" in session then session["language"] else Str("en");
    if lang.Str? && lang.s in Translations then Translations[lang.s] else Translations["en"]
  }
}
