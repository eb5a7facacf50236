/**
 `do_respone`: which file a complete request is answered with, and the map of user names to passwords
 that login and registration forms work on. `stat` and the outcome of the SQL insert are parameters.
 */
module Routing {
  import opened Options
  import opened CText
  import opened Request

  /** HTTP_CODE */
  datatype HttpCode =
    | NO_REQUEST | GET_REQUEST | BAD_REQUEST | NO_RESOURCE
    | FORBIDDEN_REQUEST | FILE_REQUEST | INTERNAL_ERROR | CLOSED_CONNECTION

  /** What `stat` says about a path: S_IROTH, S_ISDIR, st_size. */
  datatype FileStat = Absent | Present(othersRead: bool, directory: bool, size: nat)

  datatype Site = Site(docRoot: string, stat: string -> FileStat)

  type Users = map<string, string>

  /**
   The answer's code and the fields `do_respone` leaves behind.
   Throws: `substr` is called past the end of the form and its exception is not caught.
   */
  datatype Reply = Reply(code: HttpCode, url: string, realFile: string, users: Users) | Throws

  /** `s.find_last_of(c)` */
  function LastIndex(s: string, c: char): (r: Option<nat>)
    ensures r == None <==> c !in s
    ensures r.Some? ==> r.value < |s| && s[r.value] == c && c !in s[r.value + 1..]
  {
    if s == [] then None
    else if s[|s| - 1] == c then Some(|s| - 1)
    else
      var r := LastIndex(s[..|s| - 1], c);
      assert r.Some? ==> s[r.value + 1..] == s[..|s| - 1][r.value + 1..] + [s[|s| - 1]];
      r
  }

  /** `s[i]` of a `std::string`, which is NUL at the end. */
  function CharAt(s: string, i: nat): char
    requires i <= |s|
  {
    if i < |s| then s[i] else NUL
  }

  /** The character after the last slash, or nothing when there is no slash. */
  function Flag(url: string): Option<char> {
    match LastIndex(url, '/')
    case None => None
    case Some(pos) => Some(CharAt(url, pos + 1))
  }

  predicate IsForm(f: Fields) {
    f.enablePost && (Flag(f.url) == Some('2') || Flag(f.url) == Some('3'))
  }

  /** The user name and password read from a form body of at least five bytes. */
  function FormUser(form: string): string
    requires |form| >= 5
  {
    var pos := |Until(form, '&')|;
    // a position before 5, like npos, makes the length argument of `substr` huge
    if '&' in form && pos >= 5 then (UntilShape(form, '&'); form[5..pos]) else form[5..]
  }

  function FormPassword(form: string): string {
    match LastIndex(form, '=')
    case None => form
    case Some(pos) => form[pos + 1..]
  }

  /** The map after a form: a registration enters a new name, whatever the SQL insert returned. */
  function UsersOf(f: Fields, users: Users): Users
    requires IsForm(f) && |f.body| >= 5
  {
    var name := FormUser(f.body);
    if Flag(f.url) == Some('3') && name !in users then users[name := FormPassword(f.body)] else users
  }

  /** The page a form leads to. */
  function UrlAfterForm(f: Fields, users: Users, sqlOk: bool): string
    requires IsForm(f) && |f.body| >= 5
  {
    var name, passwd := FormUser(f.body), FormPassword(f.body);
    if Flag(f.url) == Some('3') then
      if name !in users && sqlOk then "/log.html" else "/registerError.html"
    else
      if name in users && users[name] == passwd then "/welcome.html" else "/logError.html"
  }

  function FileFor(docRoot: string, url: string, flag: char): string {
    if flag == '0' then docRoot + "/register.html"
    else if flag == '1' then docRoot + "/log.html"
    else if flag == '5' then docRoot + "/picture.html"
    else if flag == '6' then docRoot + "/video.html"
    else if flag == '7' then docRoot + "/fans.html"
    else docRoot + url
  }

  function CodeFor(stat: FileStat): HttpCode {
    match stat
    case Absent => NO_RESOURCE
    case Present(othersRead, directory, _) =>
      if !othersRead then FORBIDDEN_REQUEST
      else if directory then BAD_REQUEST
      else FILE_REQUEST
  }

  /** The part after the form: the file for this URL, and what `stat` makes of it. */
  function ServeFile(url: string, site: Site, users: Users): Reply {
    match Flag(url)
    case None => Reply(BAD_REQUEST, url, site.docRoot, users)
    case Some(flag) =>
      var file := FileFor(site.docRoot, url, flag);
      Reply(CodeFor(site.stat(file)), url, file, users)
  }

  function DoRespone(f: Fields, users: Users, site: Site, sqlOk: bool): (r: Reply)
    ensures r.Reply? ==> r.code != NO_REQUEST && r.code != GET_REQUEST
    ensures r.Reply? && r.code == FILE_REQUEST ==> site.stat(r.realFile).Present?
  {
    if Flag(f.url) == None then Reply(BAD_REQUEST, f.url, site.docRoot, users)
    else if !IsForm(f) then ServeFile(f.url, site, users)
    else if |f.body| < 5 then Throws
    else ServeFile(UrlAfterForm(f, users, sqlOk), site, UsersOf(f, users))
  }

  /** All that `do_respone` looks at. */
  lemma SameReply(f: Fields, g: Fields, users: Users, site: Site, sqlOk: bool)
    requires f.url == g.url && f.enablePost == g.enablePost && f.body == g.body
    ensures DoRespone(f, users, site, sqlOk) == DoRespone(g, users, site, sqlOk)
  {
    hide Flag, FormUser, FormPassword, ServeFile;
  }

  // ---- which file, and what is answered for it ----

  /** The flag is the character after the last slash, NUL when the URL ends with it. */
  lemma FlagIs(before: string, after: string)
    requires '/' !in after
    ensures Flag(before + "/" + after) == Some(if after == [] then '\0' else after[0])
    ensures Flag(after) == None
  {
    var url := before + "/" + after;
    assert url[|before|] == '/' && url[|before| + 1..] == after;
    LastIndexIs(url, '/', |before|);
  }

  /**
   A complete request that is no form: the URL is kept, the flag chooses one of five pages or the URL's own file,
   and what `stat` says about that file decides.
   */
  lemma FileIsChosen(f: Fields, users: Users, site: Site, sqlOk: bool)
    requires Flag(f.url).Some? && !IsForm(f)
    ensures var r, flag := DoRespone(f, users, site, sqlOk), Flag(f.url).value;
      && r.Reply? && r.url == f.url && r.users == users
      && (flag == '0' ==> r.realFile == site.docRoot + "/register.html")
      && (flag == '1' ==> r.realFile == site.docRoot + "/log.html")
      && (flag == '5' ==> r.realFile == site.docRoot + "/picture.html")
      && (flag == '6' ==> r.realFile == site.docRoot + "/video.html")
      && (flag == '7' ==> r.realFile == site.docRoot + "/fans.html")
      && (flag !in "01567" ==> r.realFile == site.docRoot + f.url)
      && StatDecides(r.code, site.stat(r.realFile))
  {
    hide Flag;
    assert forall c :: c in "01567" <==> c == '0' || c == '1' || c == '5' || c == '6' || c == '7';
  }

  /** Served if it is there, readable by others and no directory; refused if not readable; else not found. */
  predicate StatDecides(code: HttpCode, stat: FileStat) {
    && (code == FILE_REQUEST <==> stat.Present? && stat.othersRead && !stat.directory)
    && (code == FORBIDDEN_REQUEST <==> stat.Present? && !stat.othersRead)
    && (code == BAD_REQUEST <==> stat.Present? && stat.othersRead && stat.directory)
    && (code == NO_RESOURCE <==> stat.Absent?)
  }

  /** Which of these two requests is a form is said by the method and the flag. */
  lemma FormIs(f: Fields, before: string, after: string)
    requires f.url == before + "/" + after && '/' !in after && after != []
    ensures IsForm(f) <==> f.enablePost && (after[0] == '2' || after[0] == '3')
  {
    FlagIs(before, after);
  }

  /** After a form the page it leads to is served from the document root. */
  lemma FormPageIsServed(f: Fields, users: Users, site: Site, sqlOk: bool)
    requires IsForm(f) && |f.body| >= 5
    ensures var r := DoRespone(f, users, site, sqlOk);
      && r.Reply? && r.realFile == site.docRoot + r.url && StatDecides(r.code, site.stat(r.realFile))
      && (Flag(f.url) == Some('2') ==> r.url == "/welcome.html" || r.url == "/logError.html")
      && (Flag(f.url) == Some('3') ==> r.url == "/log.html" || r.url == "/registerError.html")
  {
    hide Flag, FormUser, FormPassword, UsersOf;
    PageFlags();
  }

  lemma PageFlags()
    ensures Flag("/welcome.html") == Some('w') && Flag("/logError.html") == Some('l')
    ensures Flag("/log.html") == Some('l') && Flag("/registerError.html") == Some('r')
  {
    hide Flag;
    assert [] + "/" + "welcome.html" == "/welcome.html" && [] + "/" + "logError.html" == "/logError.html";
    assert [] + "/" + "log.html" == "/log.html" && [] + "/" + "registerError.html" == "/registerError.html";
    FlagIs([], "welcome.html");
    FlagIs([], "logError.html");
    FlagIs([], "log.html");
    FlagIs([], "registerError.html");
  }

  // ---- every URL the parser accepts has a slash ----

  predicate Rooted(url: string) {
    url != [] && url[0] == '/'
  }

  lemma {:induction false} HeadLeavesRootedUrl(c: Conn)
    requires c.Valid() && (c.f.phase != RequestLine ==> Rooted(c.f.url))
    ensures var b := Head(c).1; b.f.phase != RequestLine ==> Rooted(b.f.url)
    ensures Head(c).0 == Stopped(Complete) ==> Head(c).1.f.phase != RequestLine
    decreases |c.data| - c.checked
  {
    if c.f.phase != Content {
      StepLeavesRootedUrl(c);
      if HeadStep(c).0 == None {
        HeadLeavesRootedUrl(HeadStep(c).1);
      }
    }
  }

  lemma StepLeavesRootedUrl(c: Conn)
    requires c.Valid() && c.f.phase != Content && (c.f.phase != RequestLine ==> Rooted(c.f.url))
    ensures var b := HeadStep(c).1; b.f.phase != RequestLine ==> Rooted(b.f.url)
    ensures HeadStep(c).0 == Some(Complete) ==> HeadStep(c).1.f.phase != RequestLine
  {
  }

  lemma {:induction false} BodyKeepsUrl(c: Conn, ok: bool)
    requires c.Valid() && c.f.phase == Content
    ensures Body(c, ok).1.f.url == c.f.url && Body(c, ok).1.f.phase == Content
    decreases |c.data| - c.checked, ok
  {
    if !ok {
      var (st, c1) := ParseLine(c);
      if st == LineOk { BodyKeepsUrl(c1, true); }
    } else {
      var c1 := c.(start := c.checked);
      if !SumOverflows(c1) && !BodyArrived(c1) { BodyKeepsUrl(c1, false); }
    }
  }

  /**
   When a request is complete its URL has a slash, before the form is dealt with and after: neither
   early return of `do_respone` is taken, and BAD_REQUEST there means that the file is a directory.
   */
  lemma NoSlashIsUnreachable(c: Conn, users: Users, site: Site, sqlOk: bool)
    requires c.Valid() && (c.f.phase != RequestLine ==> Rooted(c.f.url))
    requires ReadProcess(c).0 == Complete
    ensures var f := ReadProcess(c).1.f;
      var reply := DoRespone(f, users, site, sqlOk);
      && Flag(f.url).Some?
      && (reply.Reply? ==> Rooted(reply.url) && Flag(reply.url).Some?)
      && (reply.Reply? && reply.code == BAD_REQUEST ==>
            site.stat(reply.realFile).Present? && site.stat(reply.realFile).directory)
      && (reply == Throws <==> IsForm(f) && |f.body| < 5)
  {
    hide HeadStep, Body, FileFor, UrlAfterForm, UsersOf, FormUser, FormPassword;
    HeadLeavesRootedUrl(c);
    if Head(c).0 == AtBody { BodyKeepsUrl(Head(c).1, true); }
    var f := ReadProcess(c).1.f;
    assert f.url[0] == '/';
    if IsForm(f) && |f.body| >= 5 { FormUrlIsRooted(f, users, sqlOk); }
  }

  lemma FormUrlIsRooted(f: Fields, users: Users, sqlOk: bool)
    requires IsForm(f) && |f.body| >= 5
    ensures Rooted(UrlAfterForm(f, users, sqlOk))
  {
    hide Flag, FormUser, FormPassword;
  }

  // ---- forms ----

  function FormText(name: string, passwd: string): string {
    "user=" + name + "&passwd=" + passwd
  }

  lemma LastIndexIs(s: string, c: char, i: nat)
    requires i < |s| && s[i] == c && c !in s[i + 1..]
    ensures LastIndex(s, c) == Some(i)
  {
    hide LastIndex;
    var j := LastIndex(s, c).value;
    assert forall k :: i < k < |s| ==> s[k] == s[i + 1..][k - i - 1];
    assert forall k :: j < k < |s| ==> s[k] == s[j + 1..][k - j - 1];
  }

  lemma UserOfForm(lead: string, name: string, rest: string)
    requires |lead| == 5 && '&' !in lead && rest != [] && rest[0] == '&'
    ensures FormUser(lead + name + rest) == Until(name, '&')
  {
    var form := lead + name + rest;
    assert form == lead + (name + rest);
    UntilAcross(lead, name + rest, '&');
    if '&' in name {
      UntilIgnoresTail(name, rest, '&');
    } else {
      assert (name + rest)[..|name|] == name;
      UntilStops(name + rest, '&', |name|);
      UntilAll(name, '&');
    }
    assert form[5 + |name|] == '&';
    CutUser(form, lead, Until(name, '&'));
  }

  lemma CutUser(form: string, lead: string, user: string)
    requires |lead| == 5 && |form| >= 5 && Until(form, '&') == lead + user && '&' in form
    ensures FormUser(form) == user
  {
    hide Until;
    UntilShape(form, '&');
    assert form[5..5 + |user|] == (lead + user)[5..] == user;
  }

  lemma PasswordOfForm(before: string, passwd: string)
    requires before != [] && before[|before| - 1] == '='
    ensures FormPassword(before + passwd) == FormPassword(passwd)
    ensures FormPassword(passwd) == passwd <==> '=' !in passwd
  {
    hide LastIndex;
    var form := before + passwd;
    var eq := |before| - 1;
    match LastIndex(passwd, '=')
    case None =>
      assert form[eq + 1..] == passwd;
      LastIndexIs(form, '=', eq);
    case Some(i) =>
      assert form[eq + 1 + i + 1..] == passwd[i + 1..];
      LastIndexIs(form, '=', eq + 1 + i);
  }

  /** Reading a printed form back gives the user and the password exactly when neither hides a delimiter. */
  lemma FormRoundTrip(name: string, passwd: string)
    ensures var form := FormText(name, passwd);
      && |form| >= 5
      && (FormUser(form) == name <==> '&' !in name)
      && (FormPassword(form) == passwd <==> '=' !in passwd)
  {
    hide FormUser, FormPassword, Until;
    var lead, rest := "user=", "&passwd=" + passwd;
    assert FormText(name, passwd) == lead + name + rest;
    UserOfForm(lead, name, rest);
    UntilShape(name, '&');
    var before := "user=" + name + "&passwd=";
    assert FormText(name, passwd) == before + passwd;
    PasswordOfForm(before, passwd);
  }

  /** A form whose first '&' is missing or among the first five bytes: all of the rest is the user. */
  lemma UserWithoutEnd(form: string)
    requires |form| >= 5 && ('&' !in form || '&' in form[..5])
    ensures FormUser(form) == form[5..]
  {
    UntilShape(form, '&');
    if '&' in form {
      var i :| 0 <= i < 5 && form[..5][i] == '&';
      assert form[i] == '&';
    }
  }

  /** A form without '=' is its own password. */
  lemma PasswordWithoutStart(form: string)
    requires '=' !in form
    ensures FormPassword(form) == form
  {
  }

  // ---- runs of requests on one connection object ----

  datatype Arrival = Arrival(f: Fields, sqlOk: bool)

  /** The map after these complete requests, in order; a request that throws ends the run. */
  function UsersAfter(users: Users, run: seq<Arrival>): Users
    decreases |run|
  {
    if run == [] || CutsShort(run[0]) then users
    else UsersAfter(if IsForm(run[0].f) then UsersOf(run[0].f, users) else users, run[1..])
  }

  predicate Registers(a: Arrival, name: string) {
    a.f.enablePost && Flag(a.f.url) == Some('3') && |a.f.body| >= 5 && FormUser(a.f.body) == name
  }

  predicate CutsShort(a: Arrival) {
    IsForm(a.f) && |a.f.body| < 5
  }

  /** The password in the first registration form for this name, if one is dealt with. */
  function FirstPassword(run: seq<Arrival>, name: string): Option<string> {
    if run == [] || CutsShort(run[0]) then None
    else if Registers(run[0], name) then Some(FormPassword(run[0].f.body))
    else FirstPassword(run[1..], name)
  }

  /** The password that counts: the one loaded from the database, else the first one registered. */
  function PasswordOf(users: Users, run: seq<Arrival>, name: string): Option<string> {
    if name in users then Some(users[name]) else FirstPassword(run, name)
  }

  /** A run does to the map what `do_respone` does to it, request by request. */
  lemma RunFollowsDoRespone(users: Users, a: Arrival, rest: seq<Arrival>, site: Site)
    ensures var r := DoRespone(a.f, users, site, a.sqlOk);
      && (r == Throws <==> CutsShort(a))
      && UsersAfter(users, [a] + rest) == if r == Throws then users else UsersAfter(r.users, rest)
  {
    hide FileFor, UrlAfterForm, UsersOf;
    assert ([a] + rest)[1..] == rest;
  }

  lemma OneArrival(users: Users, a: Arrival, name: string)
    requires !CutsShort(a)
    ensures var users' := if IsForm(a.f) then UsersOf(a.f, users) else users;
      && (name in users' <==> name in users || Registers(a, name))
      && (name in users ==> users'[name] == users[name])
      && (name !in users && Registers(a, name) ==> users'[name] == FormPassword(a.f.body))
  {
    hide Flag, FormUser, FormPassword;
  }

  /** Whatever requests come in between, a name keeps the first password it was given. */
  lemma {:induction false} FirstRegistrationWins(users: Users, run: seq<Arrival>, name: string)
    ensures var after := UsersAfter(users, run);
      PasswordOf(users, run, name) == if name in after then Some(after[name]) else None
    decreases |run|
  {
    hide Flag, FormUser, FormPassword, UsersOf;
    if run != [] && !CutsShort(run[0]) {
      OneArrival(users, run[0], name);
      var users' := if IsForm(run[0].f) then UsersOf(run[0].f, users) else users;
      FirstRegistrationWins(users', run[1..], name);
    }
  }

  /** After any run, a login form reaches `/welcome.html` if and only if it gives that password. */
  lemma LoginIffPasswordMatches(users: Users, run: seq<Arrival>, site: Site, login: Arrival)
    requires login.f.enablePost && Flag(login.f.url) == Some('2') && |login.f.body| >= 5
    ensures var r := DoRespone(login.f, UsersAfter(users, run), site, login.sqlOk);
      && r.Reply?
      && r.users == UsersAfter(users, run)
      && r.url == (if PasswordOf(users, run, FormUser(login.f.body)) == Some(FormPassword(login.f.body))
                   then "/welcome.html" else "/logError.html")
      && r.realFile == site.docRoot + r.url
  {
    hide FileFor, FormUser, FormPassword, Flag, UsersAfter, PasswordOf;
    FirstRegistrationWins(users, run, FormUser(login.f.body));
    FormPageIsServed(login.f, UsersAfter(users, run), site, login.sqlOk);
  }
}
