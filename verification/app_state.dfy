/** The screen state machine of the app: which screen shows, the user type it
    remembers, the start-up check of the stored session, log in and log out, and
    the navigation callbacks each screen is given. */
module AppState {
  import opened Wrappers
  import opened Text
  import opened Roles

  datatype Screen =
    | Loading | Welcome | Login | RegisterScreen
    | AlunoDashboard | ProfessorDashboard
    | GerenciarNotas | MatricularAlunos | NotificationsProfessor | NotificationsStudent

  /** The value of `appState` for each screen. */
  function Name(s: Screen): string {
    match s
    case Loading => "loading"
    case Welcome => "welcome"
    case Login => "login"
    case RegisterScreen => "register"
    case AlunoDashboard => "aluno-dashboard"
    case ProfessorDashboard => "professor-dashboard"
    case GerenciarNotas => "gerenciar-notas"
    case MatricularAlunos => "matricular-alunos"
    case NotificationsProfessor => "notifications-professor"
    case NotificationsStudent => "notifications-student"
  }

  /** Distinct screens have distinct names. */
  lemma NamesDistinct(s: Screen, t: Screen)
    ensures Name(s) == Name(t) <==> s == t
  {
  }

  /** `appState` and `userType`. The stored type is cast, not checked, so any
      text can end up in `userType`. */
  datatype App = App(screen: Screen, userType: Option<string>)

  const Start := App(Loading, None)

  /** The two `AsyncStorage` reads of `checkAuthStatus`, or a storage failure. */
  datatype StorageRead = Read(token: Option<string>, userType: Option<string>) | ReadFailed

  /** `checkAuthStatus`: a stored token and type open the dashboard for that type,
      the student's for ALUNO and the professor's for anything else; otherwise, or
      when storage fails, the welcome screen. */
  function CheckAuthStatus(a: App, read: StorageRead): (r: App)
    ensures r.screen in {Welcome, AlunoDashboard, ProfessorDashboard}
    ensures r.screen == Welcome <==> !(read.Read? && Truthy(read.token) && Truthy(read.userType))
    ensures r.screen == Welcome ==> r.userType == a.userType
    ensures r.screen == AlunoDashboard <==>
      read.Read? && Truthy(read.token) && read.userType == Some("ALUNO")
    ensures r.screen != Welcome ==> r.userType == read.userType
  {
    match read
    case ReadFailed => a.(screen := Welcome)
    case Read(token, t) =>
      if Truthy(token) && Truthy(t) then
        App(if t.value == "ALUNO" then AlunoDashboard else ProfessorDashboard, t)
      else a.(screen := Welcome)
  }

  /** `handleLogin`. */
  function HandleLogin(a: App, t: Tipo): (r: App)
    ensures r.userType == Some(t.Name())
    ensures r.screen == (if t == Aluno then AlunoDashboard else ProfessorDashboard)
  {
    App(if t.Name() == "ALUNO" then AlunoDashboard else ProfessorDashboard, Some(t.Name()))
  }

  /** `handleLogout`. */
  function HandleLogout(a: App): (r: App)
    ensures r == App(Welcome, None)
  {
    App(Welcome, None)
  }

  /** The `navigateTo…` functions. */
  datatype Nav =
    | ToLogin | ToRegister | ToWelcome | ToNotas | ToProfessorDashboard | ToMatriculas
    | ToNotificationsProfessor | ToNotificationsStudent | ToAlunoDashboard

  function Target(n: Nav): Screen {
    match n
    case ToLogin => Login
    case ToRegister => RegisterScreen
    case ToWelcome => Welcome
    case ToNotas => GerenciarNotas
    case ToProfessorDashboard => ProfessorDashboard
    case ToMatriculas => MatricularAlunos
    case ToNotificationsProfessor => NotificationsProfessor
    case ToNotificationsStudent => NotificationsStudent
    case ToAlunoDashboard => AlunoDashboard
  }

  function Navigate(a: App, n: Nav): (r: App)
    ensures r.userType == a.userType
  {
    a.(screen := Target(n))
  }

  /** A navigation lands on the same screen whatever screen it starts from, and
      distinct navigations land on distinct screens. */
  lemma NavigateIsConstant(a: App, b: App, n: Nav, m: Nav)
    ensures Navigate(a, n).screen == Navigate(b, n).screen
    ensures Navigate(a, n).screen == Navigate(a, m).screen <==> n == m
  {
  }

  /** What can happen while the app runs. */
  datatype Event = AuthChecked(read: StorageRead) | LoggedIn(tipo: Tipo) | LoggedOut | Go(nav: Nav)

  /** The callbacks `renderCurrentScreen` hands to the screen showing: the start-up
      check runs on the loading screen only, and the other events are the props each
      page receives. */
  predicate Offers(s: Screen, e: Event) {
    match e
    case AuthChecked(_) => s == Loading
    case LoggedIn(_) => s == Login
    case LoggedOut => s == AlunoDashboard || s == ProfessorDashboard
    case Go(n) =>
      match s
      case Loading => false
      case Welcome => n == ToLogin || n == ToRegister
      case Login => n == ToRegister
      case RegisterScreen => n == ToLogin
      case AlunoDashboard => n == ToNotificationsStudent
      case ProfessorDashboard => n == ToNotas || n == ToMatriculas || n == ToNotificationsProfessor
      case GerenciarNotas => n == ToProfessorDashboard
      case MatricularAlunos => n == ToProfessorDashboard
      case NotificationsProfessor => n == ToProfessorDashboard
      case NotificationsStudent => n == ToAlunoDashboard
  }

  /** One step: `None` when the screen showing offers no such callback. */
  function Step(a: App, e: Event): (r: Option<App>)
    ensures r.Some? <==> Offers(a.screen, e)
  {
    if !Offers(a.screen, e) then None
    else match e
      case AuthChecked(read) => Some(CheckAuthStatus(a, read))
      case LoggedIn(t) => Some(HandleLogin(a, t))
      case LoggedOut => Some(HandleLogout(a))
      case Go(n) => Some(Navigate(a, n))
  }

  /** The `onBack` callback of each inner screen. */
  function Back(s: Screen): (r: Option<Nav>)
    ensures r.Some? ==> Offers(s, Go(r.value))
  {
    match s
    case GerenciarNotas => Some(ToProfessorDashboard)
    case MatricularAlunos => Some(ToProfessorDashboard)
    case NotificationsProfessor => Some(ToProfessorDashboard)
    case NotificationsStudent => Some(ToAlunoDashboard)
    case _ => None
  }

  /** The inner screens go back to the dashboard they were opened from, and that is
      the only way out of them. */
  lemma BackIsTheOnlyWayOut(s: Screen, n: Nav)
    requires Back(s).Some?
    ensures Offers(s, Go(n)) <==> n == Back(s).value
    ensures Target(Back(s).value) == (if StudentScreen(s) then AlunoDashboard else ProfessorDashboard)
  {
  }

  predicate StudentScreen(s: Screen) {
    s == AlunoDashboard || s == NotificationsStudent
  }

  predicate ProfessorScreen(s: Screen) {
    s == ProfessorDashboard || s == GerenciarNotas || s == MatricularAlunos || s == NotificationsProfessor
  }

  /** The screen and the remembered user type agree: no user type before log in,
      ALUNO on the student's screens, and some other non-empty type on the
      professor's. */
  predicate Consistent(a: App) {
    && (!StudentScreen(a.screen) && !ProfessorScreen(a.screen) ==> a.userType.None?)
    && (StudentScreen(a.screen) ==> a.userType == Some("ALUNO"))
    && (ProfessorScreen(a.screen) ==> Truthy(a.userType) && a.userType.value != "ALUNO")
  }

  /** Every step keeps the screen and the user type in agreement. */
  lemma StepKeepsConsistent(a: App, e: Event)
    requires Consistent(a) && Step(a, e).Some?
    ensures Consistent(Step(a, e).value)
  {
  }

  /** Runs a sequence of events from `a`, stopping at the first one the screen
      showing does not offer. */
  function Run(a: App, es: seq<Event>): App
    decreases |es|
  {
    if |es| == 0 then a
    else match Step(a, es[0])
      case None => a
      case Some(b) => Run(b, es[1..])
  }

  /** Whatever happens after start-up, a student's screen is only ever showing for
      an ALUNO and a professor's screen never for one. */
  lemma {:induction false} RunKeepsConsistent(a: App, es: seq<Event>)
    requires Consistent(a)
    ensures Consistent(Run(a, es))
    decreases |es|
  {
    if |es| > 0 {
      var r := Step(a, es[0]);
      if r.Some? {
        StepKeepsConsistent(a, es[0]);
        RunKeepsConsistent(r.value, es[1..]);
      }
    }
  }

  lemma StartIsConsistent()
    ensures Consistent(Start)
  {
  }
}
