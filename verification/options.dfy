/** The option handling at the top of `main` (main.py:61-93): picking up the
    command-line options, parsing the cookie string, the mandatory-option
    check that exits with status 9, and trimming the output directory. */
module Options {
  import opened Errors
  import opened Text
  import Cookies

  datatype Option<T> = None | Some(value: T)

  /** What docopt hands back: each option absent (`None`) or its text. */
  datatype Args = Args(
    debug: bool,
    outDir: Option<string>,
    mailfile: Option<string>,
    mailfolder: Option<string>,
    cookie: Option<string>)

  /** The settings the export runs with. */
  datatype Config = Config(
    debug: bool,
    outDir: string,
    mailfile: string,
    mailfolder: string,
    cookies: map<string, string>)

  const InboxFolder := "($Inbox)"

  /** Python truthiness of an option: present and not the empty string. */
  predicate Given(o: Option<string>) {
    o.Some? && o.value != ""
  }

  /** `if outdir.endswith('/'): outdir = outdir[:-1]` — one trailing slash is cut. */
  function TrimOutDir(dir: string): (r: string)
    ensures r + (if dir != [] && dir[|dir| - 1] == '/' then "/" else "") == dir
  {
    if dir != [] && dir[|dir| - 1] == '/' then dir[..|dir| - 1] else dir
  }

  /** The settings `main` ends up with before it starts loading, or the reason
      it stops: the IndexError from a malformed cookie string, or `exit(9)`
      when the mail file or the cookies are missing. `tempDir` stands for
      `tempfile.gettempdir()`. */
  function Configure(args: Args, tempDir: string): Result<Config> {
    var cookies :=
      if Given(args.cookie) then Cookies.CookieJar(Cookies.Pieces(args.cookie.value)) else Ok(map[]);
    if cookies.Err? then Err(cookies.failure)
    else if !Given(args.mailfile) || cookies.value == map[] then Err(MissingMandatoryOptions)
    else
      var outDir := if Given(args.outDir) then args.outDir.value else tempDir;
      Ok(Config(
        debug := args.debug,
        outDir := TrimOutDir(outDir),
        mailfile := args.mailfile.value,
        mailfolder := if Given(args.mailfolder) then args.mailfolder.value else InboxFolder,
        cookies := cookies.value))
  }

  /** A cookie string that parses always yields at least one cookie. */
  lemma ParsedCookiesNonEmpty(cookieString: string)
    requires Cookies.CookieJar(Cookies.Pieces(cookieString)).Ok?
    ensures Cookies.CookieJar(Cookies.Pieces(cookieString)).value != map[]
  {
    var pieces := Cookies.Pieces(cookieString);
    Cookies.CookieJarKeys(pieces);
    assert Cookies.Key(pieces[0]) in Cookies.CookieJar(pieces).value;
  }

  /** `main` exits with status 9 exactly when the cookie string (if any)
      parses and the mail file or the cookie option is missing or empty. */
  lemma ExitNineIff(args: Args, tempDir: string)
    ensures Configure(args, tempDir) == Err(MissingMandatoryOptions) <==>
              (!Given(args.cookie) || Cookies.CookieJar(Cookies.Pieces(args.cookie.value)).Ok?) &&
              (!Given(args.mailfile) || !Given(args.cookie))
  {
    if Given(args.cookie) {
      var jar := Cookies.CookieJar(Cookies.Pieces(args.cookie.value));
      if jar.Ok? {
        ParsedCookiesNonEmpty(args.cookie.value);
      } else {
        Cookies.CookieJarFails(Cookies.Pieces(args.cookie.value));
        assert jar.failure.CookieWithoutValue?;
      }
    }
  }

  /** A run that gets past the option checks has a mail file, at least one
      cookie, the inbox as its default folder, and an output directory that
      is the given one (or the temp directory) with one trailing slash cut. */
  lemma ConfigureOk(args: Args, tempDir: string)
    requires Configure(args, tempDir).Ok?
    ensures var c := Configure(args, tempDir).value;
            && Given(args.mailfile) && Given(args.cookie)
            && c.mailfile == args.mailfile.value
            && c.cookies == Cookies.CookieJar(Cookies.Pieces(args.cookie.value)).value
            && c.cookies != map[]
            && c.mailfolder == (if Given(args.mailfolder) then args.mailfolder.value else InboxFolder)
            && (var d := if Given(args.outDir) then args.outDir.value else tempDir;
                c.outDir == d || c.outDir + "/" == d)
  {
  }
}
