/**
 * The form login of `Navigator`: `_do_login` opens the login page and, when
 * a form is described, selects it, fills in the user name and the password
 * and submits it; `login_with_form` remembers what it was given and logs in
 * with the navigator's browser; `_re_login_with_form` replays the stored
 * login on a new browser.
 *
 * The web site (the `requests` session behind a `mechanicalsoup` browser) is
 * a function from the actions a browser has performed, in order, to its
 * reply to the last of them: a page, or the exception raised.
 */
module Login {
  import opened Base
  import opened Transfer

  /** `--form FORM_SELECTOR USERNAME_FIELD PASSWORD_FIELD SUBMIT_FIELD`; the last one is never used. */
  datatype Form = Form(formSelector: string, userField: string, passField: string, selector: string)

  datatype Action =
    | Open(url: Option<string>)
    | SelectForm(selector: string, index: Option<nat>)
    | SetField(name: string, value: Option<string>)
    | Submit

  datatype Page = Page(status: int, text: string)

  datatype BrowserReply = Loaded(page: Page) | Threw(error: Exception)

  type Site = seq<Action> -> BrowserReply

  const OPEN_FAILED := "couldn't open the password page\n\n"
  const SUBMIT_FAILED := "bad response from password page\n\n"

  /** A `StatefulBrowser`: the site it talks to and what it has done so far. */
  class Browser {
    const site: Site
    var log: seq<Action>

    constructor (site: Site)
      ensures this.site == site && log == []
    {
      this.site := site;
      log := [];
    }

    method Perform(action: Action) returns (reply: BrowserReply)
      modifies this
      ensures log == old(log) + [action]
      ensures reply == site(log)
    {
      log := log + [action];
      reply := site(log);
    }
  }

  /** `select_form('form')` for an empty selector, else `select_form(form_selector, 0)`. */
  function SelectFor(form: Form): Action {
    if form.formSelector == "" then SelectForm("form", None) else SelectForm(form.formSelector, Some(0))
  }

  /** The form actions, in the order `_do_login` performs them. */
  function FormActions(form: Form, username: Option<string>, password: Option<string>): seq<Action> {
    [SelectFor(form), SetField(form.userField, username), SetField(form.passField, password), Submit]
  }

  /** What a login does to a browser: the actions performed and the outcome. */
  datatype Run = Run(performed: seq<Action>, result: Result<()>)

  /** The form part of a login, from a browser whose history is `history`: the actions and the page submitted to. */
  function FormRun(site: Site, history: seq<Action>, form: Form, username: Option<string>, password: Option<string>)
    : (seq<Action>, Result<Page>)
  {
    var actions := FormActions(form, username, password);
    var select := site(history + actions[..1]);
    if select.Threw? then (actions[..1], Err(select.error))
    else
      var user := site(history + actions[..2]);
      if user.Threw? then (actions[..2], Err(user.error))
      else
        var pass := site(history + actions[..3]);
        if pass.Threw? then (actions[..3], Err(pass.error))
        else
          var submitted := site(history + actions);
          if submitted.Threw? then (actions, Err(submitted.error))
          else (actions, Ok(submitted.page))
  }

  /**
   * `_do_login(browser, target_url, username_password, form)` on a browser
   * whose history is `history`. A missing `(username, password)` pair
   * cannot be unpacked and raises `TypeError` before anything is done.
   */
  function LoginRun(site: Site, history: seq<Action>, targetUrl: Option<string>,
                    usernamePassword: Option<UsernamePassword>, form: Option<Form>): Run
  {
    if usernamePassword.None? then Run([], Err(Raised("TypeError")))
    else
      var (username, password) := usernamePassword.value;
      var landing := site(history + [Open(targetUrl)]);
      if landing.Threw? then Run([Open(targetUrl)], Err(landing.error))
      else if landing.page.status != HTTP_OK then
        Run([Open(targetUrl)], Err(DownloadFailed(OPEN_FAILED + landing.page.text)))
      else if form.None? then
        Run([Open(targetUrl)], if landing.page.status != HTTP_OK then Err(DownloadFailed(SUBMIT_FAILED + landing.page.text)) else Ok(()))
      else
        var (actions, submitted) := FormRun(site, history + [Open(targetUrl)], form.value, username, password);
        var performed := [Open(targetUrl)] + actions;
        if submitted.Err? then Run(performed, Err(submitted.error))
        else if submitted.value.status != HTTP_OK then
          Run(performed, Err(DownloadFailed(SUBMIT_FAILED + submitted.value.text)))
        else Run(performed, Ok(()))
  }

  /**
   * When a login succeeds: exactly when the credentials are there, the login
   * page opens with status 200 and, if a form is described, selecting it,
   * filling both fields and submitting all go through and the submission
   * answers 200. A successful login has performed the whole script.
   */
  lemma {:induction false} LoginSucceeds(site: Site, history: seq<Action>, targetUrl: Option<string>,
                                         usernamePassword: Option<UsernamePassword>, form: Option<Form>)
    ensures var run := LoginRun(site, history, targetUrl, usernamePassword, form);
      var landing := history + [Open(targetUrl)];
      run.result.Ok? <==>
        && usernamePassword.Some?
        && site(landing).Loaded? && site(landing).page.status == HTTP_OK
        && (form.Some? ==>
              var actions := FormActions(form.value, usernamePassword.value.0, usernamePassword.value.1);
              && (forall k :: 1 <= k < 4 ==> site(landing + actions[..k]).Loaded?)
              && site(landing + actions).Loaded?
              && site(landing + actions).page.status == HTTP_OK)
    ensures var run := LoginRun(site, history, targetUrl, usernamePassword, form);
      run.result.Ok? ==>
        run.performed == [Open(targetUrl)]
          + (if form.Some? then FormActions(form.value, usernamePassword.value.0, usernamePassword.value.1) else [])
  {
    if usernamePassword.Some? && form.Some? {
      var landing := history + [Open(targetUrl)];
      var actions := FormActions(form.value, usernamePassword.value.0, usernamePassword.value.1);
      assert actions[..4] == actions;
    }
  }

  /**
   * The two ways a login page can refuse, with their messages: a login page
   * that does not open with 200 stops everything there, and a submission
   * answered with another status is reported with the page it returned.
   */
  lemma LoginFailures(site: Site, history: seq<Action>, targetUrl: Option<string>,
                      usernamePassword: UsernamePassword, form: Option<Form>)
    ensures var run := LoginRun(site, history, targetUrl, Some(usernamePassword), form);
      var landing := site(history + [Open(targetUrl)]);
      landing.Loaded? && landing.page.status != HTTP_OK ==>
        run == Run([Open(targetUrl)], Err(DownloadFailed(OPEN_FAILED + landing.page.text)))
    ensures var run := LoginRun(site, history, targetUrl, Some(usernamePassword), form);
      var landing := history + [Open(targetUrl)];
      form.Some? && site(landing).Loaded? && site(landing).page.status == HTTP_OK ==>
        var actions := FormActions(form.value, usernamePassword.0, usernamePassword.1);
        var submitted := site(landing + actions);
        (forall k :: 1 <= k < 4 ==> site(landing + actions[..k]).Loaded?)
          && submitted.Loaded? && submitted.page.status != HTTP_OK ==>
          run == Run([Open(targetUrl)] + actions, Err(DownloadFailed(SUBMIT_FAILED + submitted.page.text)))
  {
  }

  /** The fourth field of the form description plays no part in the login. */
  lemma SubmitFieldUnused(site: Site, history: seq<Action>, targetUrl: Option<string>,
                          usernamePassword: Option<UsernamePassword>, form: Form, other: string)
    ensures LoginRun(site, history, targetUrl, usernamePassword, Some(form))
         == LoginRun(site, history, targetUrl, usernamePassword, Some(form.(selector := other)))
  {
    assert FormActions(form, None, None) == FormActions(form.(selector := other), None, None);
  }

  /** `Navigator`, with the state its login methods use. */
  class Navigator {
    /** The session shared by every browser of this navigator. */
    const site: Site
    var browser: Browser
    var targetUrl: Option<string>
    var usernamePassword: Option<UsernamePassword>
    var form: Option<Form>

    /** The navigator's own browser talks to the navigator's session. */
    ghost predicate Valid()
      reads this, browser
    {
      browser.site == site
    }

    constructor (site: Site)
      ensures Valid() && this.site == site
      ensures fresh(browser) && browser.site == site && browser.log == []
      ensures targetUrl == None && usernamePassword == None && form == None
    {
      this.site := site;
      browser := new Browser(site);
      targetUrl := None;
      usernamePassword := None;
      form := None;
    }

    /** `Navigator._do_login(browser, target_url, username_password, form)` */
    static method DoLogin(browser: Browser, targetUrl: Option<string>,
                          usernamePassword: Option<UsernamePassword>, form: Option<Form>)
      returns (r: Result<()>)
      modifies browser
      ensures var run := LoginRun(browser.site, old(browser.log), targetUrl, usernamePassword, form);
        browser.log == old(browser.log) + run.performed && r == run.result
    {
      ghost var history := browser.log;
      if usernamePassword.None? {
        return Err(Raised("TypeError"));
      }
      var (username, password) := usernamePassword.value;
      var reply := browser.Perform(Open(targetUrl));
      if reply.Threw? {
        return Err(reply.error);
      }
      var response := reply.page;
      if response.status != HTTP_OK {
        return Err(DownloadFailed(OPEN_FAILED + response.text));
      }
      if form.Some? {
        var submitted := SubmitForm(browser, form.value, username, password);
        if submitted.Err? {
          return Err(submitted.error);
        }
        response := submitted.value;
      }
      if response.status != HTTP_OK {
        return Err(DownloadFailed(SUBMIT_FAILED + response.text));
      }
      return Ok(());
    }

    /** The form steps of `_do_login`: select the form, fill both fields, submit; the first step that throws ends them. */
    static method SubmitForm(browser: Browser, f: Form, username: Option<string>, password: Option<string>)
      returns (r: Result<Page>)
      modifies browser
      ensures var (actions, submitted) := FormRun(browser.site, old(browser.log), f, username, password);
        browser.log == old(browser.log) + actions && r == submitted
    {
      ghost var history := browser.log;
      ghost var actions := FormActions(f, username, password);
      assert history + actions[..1] == history + [actions[0]];
      var reply;
      if f.formSelector == "" {
        reply := browser.Perform(SelectForm("form", None));
      } else {
        reply := browser.Perform(SelectForm(f.formSelector, Some(0)));
      }
      if reply.Threw? {
        return Err(reply.error);
      }
      assert history + actions[..2] == history + actions[..1] + [actions[1]];
      reply := browser.Perform(SetField(f.userField, username));
      if reply.Threw? {
        return Err(reply.error);
      }
      assert history + actions[..3] == history + actions[..2] + [actions[2]];
      reply := browser.Perform(SetField(f.passField, password));
      if reply.Threw? {
        return Err(reply.error);
      }
      assert history + actions == history + actions[..3] + [actions[3]];
      reply := browser.Perform(Submit);
      if reply.Threw? {
        return Err(reply.error);
      }
      return Ok(reply.page);
    }

    /**
     * `login_with_form(target_url, username_password, form)`: the target,
     * the credentials and the form are stored before the login is tried, so
     * they are there for a later re-login even when this one fails.
     */
    method LoginWithForm(targetUrl: Option<string>, usernamePassword: UsernamePassword, form: Option<Form>)
      returns (r: Result<()>)
      requires Valid()
      modifies this, browser
      ensures this.targetUrl == targetUrl
      ensures this.usernamePassword == Some(usernamePassword)
      ensures this.form == form
      ensures browser == old(browser)
      ensures Valid()
      ensures var run := LoginRun(site, old(browser.log), targetUrl, Some(usernamePassword), form);
        browser.log == old(browser.log) + run.performed && r == run.result
    {
      var b := browser;
      this.targetUrl := targetUrl;
      this.usernamePassword := Some(usernamePassword);
      this.form := form;
      r := DoLogin(b, targetUrl, Some(usernamePassword), form);
    }

    /**
     * `_re_login_with_form()`: the stored login replayed on a new browser of
     * the same session, which is returned and not kept; the navigator is
     * left as it was. Before any `login_with_form` there are no credentials
     * to unpack and it raises `TypeError`.
     */
    method ReLoginWithForm() returns (r: Result<Browser>)
      ensures var run := LoginRun(site, [], targetUrl, usernamePassword, form);
        && (r.Ok? <==> run.result.Ok?)
        && (r.Err? ==> r.error == run.result.error)
        && (r.Ok? ==> fresh(r.value) && r.value.site == site && r.value.log == run.performed)
    {
      var b := new Browser(site);
      var result := DoLogin(b, targetUrl, usernamePassword, form);
      if result.Err? {
        return Err(result.error);
      }
      return Ok(b);
    }
  }
}
