/** `oem init`: the author string `name <email>`, the fallbacks used to
    find it (command line, configuration, git), and how the values given
    on the command line and the defaults are kept apart for the project
    template. The template rendering itself is not part of this model. */
module OemInit {

  import opened Base
  import opened Text

  /** `AUTHOR_REGEX`, `^(?P<name>[^<]+)<(?P<email>[^> ]+)>$`: the name runs
      to the first `<`, the email to the next `>`, and only a final
      newline may follow. */
  function ParseAuthor(s: string): (r: Option<(string, string)>)
    ensures r.Some? ==> ValidAuthor(r.value.0, r.value.1)
  {
    match SplitOnce(s, '<')
    case None => None
    case Some((name, rest)) =>
      if name == "" then None
      else
        match SplitOnce(rest, '>')
        case None => None
        case Some((email, tail)) =>
          if email != "" && ' ' !in email && (tail == "" || tail == "\n") then Some((name, email)) else None
  }

  /** `[^<]+` and `[^> ]+`. */
  predicate ValidAuthor(name: string, email: string)
  {
    name != "" && '<' !in name && email != "" && '>' !in email && ' ' !in email
  }

  /** The text `name<email>` of an author. */
  function AuthorText(name: string, email: string): string
  {
    name + "<" + email + ">"
  }

  /** A matching author string is its name, `<`, its email and `>`,
      possibly followed by one newline. */
  lemma ParseAuthorText(s: string)
    requires ParseAuthor(s).Some?
    ensures var (name, email) := ParseAuthor(s).value;
            s == AuthorText(name, email) || s == AuthorText(name, email) + "\n"
  {
    var (name, rest) := SplitOnce(s, '<').value;
    var (email, tail) := SplitOnce(rest, '>').value;
    assert ParseAuthor(s).value == (name, email);
    assert s == AuthorText(name, email) + tail by {
      assert s == name + ['<'] + (email + ['>'] + tail);
    }
  }

  /** A valid name and email, with or without a final newline, match as
      themselves. */
  lemma AuthorTextParses(name: string, email: string, tail: string)
    requires ValidAuthor(name, email) && (tail == "" || tail == "\n")
    ensures ParseAuthor(AuthorText(name, email) + tail) == Some((name, email))
  {
    var rest := email + ['>'] + tail;
    assert AuthorText(name, email) + tail == name + ['<'] + rest;
    IndexOfAfter(name, '<', rest);
    IndexOfAfter(email, '>', tail);
  }

  /** What `git config` answers for `user.email` and `user.name`, or that
      the shell command failed. */
  datatype GitLookup = ShellFailed | GitValues(email: Option<string>, name: Option<string>)

  /** `get_git_author`: `"name <email>"` when git knows both, non-empty. */
  function GitAuthor(g: GitLookup): (r: Option<string>)
    ensures r.Some? <==> g.GitValues? && g.email.Some? && g.email.value != "" && g.name.Some? && g.name.value != ""
  {
    match g
    case ShellFailed => None
    case GitValues(email, name) =>
      if email.Some? && email.value != "" && name.Some? && name.value != "" then
        Some(name.value + " <" + email.value + ">")
      else None
  }

  /** The git author reads back as the git name, stripped, and the git
      email, when the name has no `<` and the email no `>` or space. */
  lemma GitAuthorRoundTrip(name: string, email: string)
    requires name != "" && '<' !in name && email != "" && '>' !in email && ' ' !in email
    ensures GitAuthor(GitValues(Some(email), Some(name))).Some?
    ensures var parsed := ParseAuthor(GitAuthor(GitValues(Some(email), Some(name))).value);
            parsed == Some((name + " ", email)) && Strip(parsed.value.0) == Strip(name)
  {
    var spaced := name + [' '];
    GitAuthorText(name, email);
    assert ValidAuthor(spaced, email) by { assert '<' !in spaced; }
    AuthorTextParses(spaced, email, "");
    assert AuthorText(spaced, email) + "" == AuthorText(spaced, email);
    StripTrailingSpace(name, ' ');
  }

  /** Git's `name <email>` is the author text of the name and a space. */
  lemma GitAuthorText(name: string, email: string)
    requires name != "" && email != ""
    ensures GitAuthor(GitValues(Some(email), Some(name))) == Some(AuthorText(name + " ", email))
  {
    assert name + " <" + email + ">" == AuthorText(name + " ", email);
  }

  /** The command line of `oem init`. */
  datatype InitArgs = InitArgs(
    template: Option<string>,
    author: Option<string>,
    licenseYears: Option<string>,
    moduleVersion: Option<string>,
    website: Option<string>)

  /** What `oem init` finds around it: whether the path is already inside
      a module, whether its parent directory exists, the module name (the
      path's last component), the configuration's `author` and
      `init.template`, the default template, whether `NO_GIT_CONFIG` is set
      to something, what git answers, and the current year. */
  datatype InitEnv = InitEnv(
    rootFound: bool,
    outputDirExists: bool,
    name: string,
    cfgAuthor: Option<string>,
    cfgTemplate: Option<string>,
    defaultTemplate: string,
    noGitConfig: bool,
    git: GitLookup,
    currentYear: string)

  /** The template variables `oem init` fills in: `name`, `author`,
      `email`, `license_years`, `version` and `website`. */
  datatype Var = Name | AuthorName | Email | LicenseYears | Version | Website

  /** The template to render, the values given on the command line (never
      prompted for) and the defaults offered for the others. */
  datatype InitPlan = InitPlan(template: string, cli: map<Var, string>, defaults: map<Var, string>)

  /** The author string: the command line's, else the configuration's,
      else git's unless `NO_GIT_CONFIG` is set. */
  function ResolveAuthor(args: InitArgs, env: InitEnv): Option<string>
  {
    if args.author.Some? then args.author
    else if env.cfgAuthor.Some? then env.cfgAuthor
    else if !env.noGitConfig then GitAuthor(env.git)
    else None
  }

  /** `--template`, else the configuration's `init.template`, else the
      default template. */
  function ResolveTemplate(args: InitArgs, env: InitEnv): string
  {
    if args.template.Some? then args.template.value
    else if env.cfgTemplate.Some? then env.cfgTemplate.value
    else env.defaultTemplate
  }

  /** `Command`: abort inside an existing module, without an output
      directory, without an author or with a malformed one. */
  function Init(args: InitArgs, env: InitEnv): (r: Result<InitPlan>)
    ensures r.Fail? ==> r.error.Abort?
  {
    if env.rootFound then Fail(Abort("Module already initialized."))
    else if !env.outputDirExists then Fail(Abort("Destination directory doesn't exists."))
    else
      match ResolveAuthor(args, env)
      case None => Fail(Abort("No author found on command line nor in config files."))
      case Some(author) =>
        match ParseAuthor(author)
        case None => Fail(Abort("Your value for 'author' doesn't match specs."))
        case Some((name, email)) => Ok(Route(args, env, Strip(name), email))
  }

  /** The values of a run: the author and email go with the command-line
      values exactly when `--author` was given, and so do the license years
      and the version, which default to the current year and `0.1`. */
  function Route(args: InitArgs, env: InitEnv, author: string, email: string): InitPlan
  {
    var who := map[AuthorName := author, Email := email];
    var cli := map[Name := env.name];
    var cli := if args.author.Some? then cli + who else cli;
    var defaults := if args.author.Some? then map[] else who;
    var cli := if args.licenseYears.Some? then cli[LicenseYears := args.licenseYears.value] else cli;
    var defaults := if args.licenseYears.Some? then defaults else defaults[LicenseYears := env.currentYear];
    var cli := if args.moduleVersion.Some? then cli[Version := args.moduleVersion.value] else cli;
    var defaults := if args.moduleVersion.Some? then defaults else defaults[Version := "0.1"];
    var cli := if args.website.Some? then cli[Website := args.website.value] else cli;
    InitPlan(ResolveTemplate(args, env), cli, defaults)
  }

  /** `oem init` succeeds exactly outside any module, with an existing
      output directory and an author string found and well formed, and
      then stores that author's name, stripped, and email. */
  lemma InitSucceeds(args: InitArgs, env: InitEnv)
    ensures Init(args, env).Ok? <==>
              && !env.rootFound && env.outputDirExists
              && ResolveAuthor(args, env).Some? && ParseAuthor(ResolveAuthor(args, env).value).Some?
    ensures Init(args, env).Ok? ==>
              var (name, email) := ParseAuthor(ResolveAuthor(args, env).value).value;
              Init(args, env).value == Route(args, env, Strip(name), email)
  {
  }

  /** Without an author on the command line, in the configuration or from
      git (disabled or unknowing), `oem init` aborts; so it does inside an
      existing module, before anything else. */
  lemma InitAborts(args: InitArgs, env: InitEnv)
    ensures env.rootFound ==> Init(args, env) == Fail(Abort("Module already initialized."))
    ensures !env.rootFound && env.outputDirExists && args.author.None? && env.cfgAuthor.None? &&
            (env.noGitConfig || GitAuthor(env.git).None?) ==>
              Init(args, env) == Fail(Abort("No author found on command line nor in config files."))
  {
  }

  /** Values given on the command line are kept apart from defaults: the
      author and email, the license years and the version are command-line
      values exactly when given there, and defaults otherwise. */
  lemma RouteSeparates(args: InitArgs, env: InitEnv, author: string, email: string)
    ensures var p := Route(args, env, author, email);
            && p.cli[Name] == env.name && Name !in p.defaults
            && (AuthorName in p.cli <==> args.author.Some?) && (AuthorName in p.defaults <==> args.author.None?)
            && (Email in p.cli <==> args.author.Some?) && (Email in p.defaults <==> args.author.None?)
            && (LicenseYears in p.cli <==> args.licenseYears.Some?)
            && (LicenseYears in p.defaults <==> args.licenseYears.None?)
            && (Version in p.cli <==> args.moduleVersion.Some?)
            && (Version in p.defaults <==> args.moduleVersion.None?)
            && (Website in p.cli <==> args.website.Some?) && Website !in p.defaults
  {
  }

  /** The values themselves: the author and email where they are routed,
      the years and version given or their defaults, the website given. */
  lemma RouteValues(args: InitArgs, env: InitEnv, author: string, email: string)
    ensures var p := Route(args, env, author, email);
            var values := if args.author.Some? then p.cli else p.defaults;
            && AuthorName in values && values[AuthorName] == author
            && Email in values && values[Email] == email
            && (args.licenseYears.Some? ==> p.cli[LicenseYears] == args.licenseYears.value)
            && (args.licenseYears.None? ==> p.defaults[LicenseYears] == env.currentYear)
            && (args.moduleVersion.Some? ==> p.cli[Version] == args.moduleVersion.value)
            && (args.moduleVersion.None? ==> p.defaults[Version] == "0.1")
            && (args.website.Some? ==> p.cli[Website] == args.website.value)
  {
  }

  /** With git as the only source, a git name and email are offered as
      defaults: the name stripped, the email as is. */
  lemma InitFromGit(args: InitArgs, env: InitEnv, name: string, email: string)
    requires !env.rootFound && env.outputDirExists
    requires args.author.None? && env.cfgAuthor.None? && !env.noGitConfig
    requires env.git == GitValues(Some(email), Some(name))
    requires name != "" && '<' !in name && email != "" && '>' !in email && ' ' !in email
    ensures Init(args, env).Ok?
    ensures Init(args, env).value == Route(args, env, Strip(name), email)
  {
    GitAuthorRoundTrip(name, email);
    InitSucceeds(args, env);
  }
}
