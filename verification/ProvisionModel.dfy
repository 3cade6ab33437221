/**
 Provisioning of a device in scan mode: the configuration in memory, its image in flash and
 the state machine that drives them, as steps on values.
 */
module ProvisionModel {
  import opened Basics

  const MAGIC: u32 := 0x27061995

  /** `ConfigFlagT`; each stands for a bit of its own. */
  datatype ConfigFlag = VALID | STORE | API | UDP | PNP

  datatype Config = Config(
    magic: u32,
    flags: set<ConfigFlag>,
    token: string,
    host: string,
    port: nat,
    username: string,
    password: string,
    connected: bool,
    forceSave: bool)

  /** What `memset` leaves. */
  const ZERO := Config(0, {}, "", "", 0, "", "", false, false)

  /** The compiled-in defaults; host, port and credentials are build settings. */
  datatype Defaults = Defaults(host: string, port: nat, username: string, password: string)
  {
    function Fresh(): Config {
      Config(MAGIC, {}, "invalid", host, port, username, password, false, false)
    }
  }

  datatype State =
    | SwitchToSta | ScanDevice | ConnectingNetwork | ConnectingNewNetwork | ConnectingCloud
    | Connected | Running | Disconnected | OtaUpgrade | ResetConfig | ResetConfigReboot
    | RequestListWifi | Reboot | Max

  /** The device: `flash` is `None` until the first write, `netUp` is `_connected`. */
  datatype Device = Device(ram: Config, flash: Option<Config>, state: State, netUp: bool)

  /** The arguments of a configuration request, decoded; empty means absent. */
  datatype Arguments = Arguments(token: string, host: string, port: string, username: string, password: string, save: string)

  datatype Request = Configure(args: Arguments) | RequestReset | RequestReboot | Other

  /** A state that a command from the cloud asks for while running. */
  datatype Command = NoCommand | Upgrade | Erase | ListWifi | NewWifi

  function SetFlag(c: Config, f: ConfigFlag, value: bool): Config
  {
    c.(flags := if value then c.flags + {f} else c.flags - {f})
  }

  /** `toCharArray` into 64 bytes: at most 63 characters survive. */
  function Fit(s: string): (r: string)
    ensures |r| <= 63 && r <= s && (r == s || |r| == 63)
  {
    if |s| > 63 then s[..63] else s
  }

  /** `String::toInt`: an optional sign and the leading digits. */
  function ToInt(s: string): int
  {
    if s != [] && s[0] == '-' then 0 - Digits(s[1..], 0)
    else if s != [] && s[0] == '+' then Digits(s[1..], 0)
    else Digits(s, 0)
  }

  function Digits(s: string, n: nat): nat
    decreases |s|
  {
    if s == [] || !('0' <= s[0] <= '9') then n else Digits(s[1..], 10 * n + (s[0] as int - '0' as int))
  }

  function Digit(d: nat): (c: char)
    requires d < 10
    ensures '0' <= c <= '9' && c as int - '0' as int == d
  {
    ('0' as int + d) as char
  }

  /** The decimal form of a number, as anybody prints it. */
  function Decimal(n: nat): (s: string)
    ensures s != [] && '0' <= s[0] <= '9'
  {
    if n < 10 then [Digit(n)] else Decimal(n / 10) + [Digit(n % 10)]
  }

  /** The text does not go on with a digit. */
  predicate NoDigit(rest: string)
  {
    rest == [] || !('0' <= rest[0] <= '9')
  }

  lemma {:induction false} DigitsOfDecimal(n: nat, rest: string)
    ensures Digits(Decimal(n) + rest, 0) == Digits(rest, n)
    decreases n
  {
    if n < 10 {
      assert ([Digit(n)] + rest)[1..] == rest;
    } else {
      var d := Digit(n % 10);
      DigitsOfDecimal(n / 10, [d] + rest);
      assert Decimal(n) + rest == Decimal(n / 10) + ([d] + rest) && ([d] + rest)[1..] == rest;
    }
  }

  /** Reading a number inverts printing it, for every number, with or without a sign and whatever
      follows it; text that does not begin with a number reads as 0. */
  lemma ToIntInvertsPrinting(n: nat, rest: string)
    requires NoDigit(rest)
    ensures ToInt(Decimal(n) + rest) == n
    ensures ToInt("-" + (Decimal(n) + rest)) == 0 - n
    ensures ToInt("+" + (Decimal(n) + rest)) == n
    ensures rest == [] || (rest[0] != '-' && rest[0] != '+') ==> ToInt(rest) == 0
  {
    DigitsOfDecimal(n, rest);
    assert ("-" + (Decimal(n) + rest))[1..] == Decimal(n) + rest == ("+" + (Decimal(n) + rest))[1..];
  }

  function ConfigSave(d: Device): Device
  {
    if STORE !in d.ram.flags then d
    else
      var ram := SetFlag(d.ram, STORE, false);
      d.(ram := ram, flash := Some(ram))
  }

  function ConfigLoad(d: Device, defaults: Defaults): Device
  {
    if VALID in d.ram.flags then d
    else
      var image := match d.flash case Some(c) => c case None => ZERO;
      var ram := if image.magic != MAGIC then defaults.Fresh() else image;
      d.(ram := ram, state := if VALID in ram.flags then d.state else ScanDevice)
  }

  function ConfigReset(d: Device, defaults: Defaults): Device
  {
    var ram := SetFlag(SetFlag(defaults.Fresh(), API, true), STORE, true);
    ConfigSave(d.(ram := ram)).(state := ScanDevice)
  }

  /** `connectNetwork`; `link` says whether the cable delivers an address. */
  function ConnectNetwork(d: Device, defaults: Defaults, link: bool): (r: (bool, Device))
  {
    var e := ConfigLoad(d, defaults);
    if link then (true, e.(netUp := true)) else (false, e)
  }

  /** Power on, or `ERaRestart`: memory is cleared and `begin` runs. */
  function Boot(d: Device, defaults: Defaults, link: bool): Device
  {
    ConnectNetwork(Device(ZERO, d.flash, Max, false), defaults, link).1
  }

  /** The configuration in memory after a request, whether or not it is accepted. */
  function Received(c: Config, a: Arguments): Config
  {
    var d := c.(forceSave := ToInt(a.save) != 0,
                token := if a.token != "" then Fit(a.token) else c.token,
                host := if a.host != "" then Fit(a.host) else c.host,
                port := if a.port != "" then ToInt(a.port) % 65536 else c.port);
    d.(username := if a.username != "" then Fit(a.username) else d.token,
       password := if a.password != "" then Fit(a.password) else d.token)
  }

  /** One request served in scan mode. */
  function Serve(d: Device, r: Request): Device
  {
    match r
    case Configure(a) =>
      var e := d.(ram := Received(d.ram, a));
      if a.token == "" then e
      else
        var f := e.(ram := SetFlag(SetFlag(SetFlag(e.ram, PNP, true), VALID, true), STORE, true), state := SwitchToSta);
        if f.ram.forceSave then ConfigSave(f) else f
    case RequestReset => d.(state := ResetConfig)
    case RequestReboot => d.(state := Reboot)
    case Other => d
  }

  /** Where a command leads.  Losing the transport in the same call undoes it, unless it was
      the command to erase, which counts as a configuration mode. */
  function Commanded(s: State, c: Command): State
  {
    match c
    case NoCommand => s
    case Upgrade => OtaUpgrade
    case Erase => ResetConfigReboot
    case ListWifi => RequestListWifi
    case NewWifi => ConnectingNewNetwork
  }

  /** What the surroundings contribute to one call of `run`: the request served in scan mode,
      whether the cloud accepts, the command received, whether the transport is still alive,
      and whether the cable delivers an address. */
  datatype Input = Input(request: Request, accepted: bool, command: Command, alive: bool, link: bool)

  /** One call of `run`; in scan mode one turn of its serving loop. */
  function RunOnce(d: Device, defaults: Defaults, i: Input): Device
  {
    match d.state
    case ScanDevice => Serve(d, i.request)
    case ConnectingCloud =>
      if i.accepted then ConfigSave(d.(ram := d.ram.(connected := true))).(state := Connected)
      else d.(state := ConnectingNetwork)
    case Connected => d.(state := Running)
    case Running =>
      var s := Commanded(Running, i.command);
      d.(state := if i.alive || s.ResetConfigReboot? then s else Disconnected)
    case ConnectingNewNetwork => d.(state := Running)
    case ResetConfig => ConfigReset(d, defaults)
    case ResetConfigReboot => ConfigReset(d, defaults).(state := Reboot)
    case RequestListWifi => d.(state := Running)
    case Reboot => Boot(d, defaults, i.link)
    case _ =>
      if d.netUp then d.(state := ConnectingCloud)
      else
        var (up, e) := ConnectNetwork(d, defaults, i.link);
        if up then e.(state := ConnectingCloud) else e
  }

  /** Any moment may also bring a power cycle. */
  datatype Step = Call(input: Input) | PowerCycle(link: bool)

  function Apply(d: Device, defaults: Defaults, s: Step): Device
  {
    match s
    case Call(i) => RunOnce(d, defaults, i)
    case PowerCycle(link) => Boot(d, defaults, link)
  }

  function Run(d: Device, defaults: Defaults, steps: seq<Step>): Device
  {
    if steps == [] then d else Apply(Run(d, defaults, steps[..|steps| - 1]), defaults, steps[|steps| - 1])
  }

  // ---------------------------------------------------------------- what every run keeps

  predicate Good(d: Device)
  {
    && d.ram.magic == MAGIC
    && (VALID !in d.ram.flags ==> d.state.ScanDevice? || d.state.ResetConfig? || d.state.Reboot?)
  }

  /** An image this device has written. */
  predicate OwnImage(c: Config)
  {
    c.magic == MAGIC && STORE !in c.flags
  }

  /** Flash is still what it was at first, or an image of this device. */
  predicate KeptOrOwn(flash: Option<Config>, first: Option<Config>)
  {
    flash == first || (flash.Some? && OwnImage(flash.value))
  }

  /** From any power-up on, over every run, and whatever flash held at first, a foreign image
      included: the cloud states and all others beyond scanning, resetting and rebooting are
      only reached with a valid configuration, and every image the device writes has the right
      magic number and is not marked as still to be stored. */
  lemma {:induction false} RunsStayGood(d: Device, defaults: Defaults, link: bool, steps: seq<Step>)
    ensures Good(Run(Boot(d, defaults, link), defaults, steps))
    ensures KeptOrOwn(Run(Boot(d, defaults, link), defaults, steps).flash, d.flash)
    decreases |steps|
  {
    if steps != [] {
      RunsStayGood(d, defaults, link, steps[..|steps| - 1]);
      StepStaysGood(Run(Boot(d, defaults, link), defaults, steps[..|steps| - 1]), defaults, steps[|steps| - 1], d.flash);
    }
  }

  lemma StepStaysGood(d: Device, defaults: Defaults, s: Step, first: Option<Config>)
    requires Good(d) && KeptOrOwn(d.flash, first)
    ensures Good(Apply(d, defaults, s)) && KeptOrOwn(Apply(d, defaults, s).flash, first)
  {
  }

  lemma CloudNeedsValidConfig(d: Device, defaults: Defaults, link: bool, steps: seq<Step>)
    ensures var e := Run(Boot(d, defaults, link), defaults, steps);
            e.state.ConnectingCloud? || e.state.Connected? || e.state.Running? ==> VALID in e.ram.flags
  {
    RunsStayGood(d, defaults, link, steps);
  }

  // ---------------------------------------------------------------- persistence

  /** The three occasions on which flash is written: a request with a token and a non-zero
      `save`, a successful connection while there is something to store, and a reset. */
  predicate Writes(d: Device, s: Step)
  {
    s.Call? && match d.state
    case ScanDevice =>
      s.input.request.Configure? && s.input.request.args.token != "" && ToInt(s.input.request.args.save) != 0
    case ConnectingCloud => s.input.accepted && STORE in d.ram.flags
    case ResetConfig => true
    case ResetConfigReboot => true
    case _ => false
  }

  /** Flash is written on these occasions and no other, and what is written is the
      configuration in memory after the step. */
  lemma FlashWritten(d: Device, defaults: Defaults, s: Step)
    ensures var e := Apply(d, defaults, s);
            e.flash == if Writes(d, s) then Some(e.ram) else d.flash
  {
  }

  /** Starting up restores the image exactly if it has the right magic number, and the
      compiled-in defaults if it is missing or foreign; it goes on to the network exactly when
      what it has then is a valid configuration. */
  lemma BootRestores(d: Device, defaults: Defaults, link: bool)
    ensures var e := Boot(d, defaults, link);
            && e.flash == d.flash
            && e.ram == (if d.flash.Some? && d.flash.value.magic == MAGIC then d.flash.value else defaults.Fresh())
            && (e.state.ScanDevice? <==> VALID !in e.ram.flags)
            && (e.netUp <==> link)
  {
  }

  predicate NoWrites(d: Device, defaults: Defaults, steps: seq<Step>)
  {
    steps != [] ==>
      && NoWrites(d, defaults, steps[..|steps| - 1])
      && !Writes(Run(d, defaults, steps[..|steps| - 1]), steps[|steps| - 1])
  }

  lemma {:induction false} FlashKept(d: Device, defaults: Defaults, steps: seq<Step>)
    requires NoWrites(d, defaults, steps)
    ensures Run(d, defaults, steps).flash == d.flash
    decreases |steps|
  {
    if steps != [] {
      FlashKept(d, defaults, steps[..|steps| - 1]);
      FlashWritten(Run(d, defaults, steps[..|steps| - 1]), defaults, steps[|steps| - 1]);
    }
  }

  /** What was in memory at the last write comes back after any run without another write
      and a power cycle, including cycles and requests in between. */
  lemma LastWriteSurvives(d: Device, defaults: Defaults, s: Step, steps: seq<Step>, link: bool)
    requires Good(d) && Writes(d, s)
    requires NoWrites(Apply(d, defaults, s), defaults, steps)
    ensures Boot(Run(Apply(d, defaults, s), defaults, steps), defaults, link).ram == Apply(d, defaults, s).ram
  {
    StepStaysGood(d, defaults, s, d.flash);
    FlashWritten(d, defaults, s);
    FlashKept(Apply(d, defaults, s), defaults, steps);
    BootRestores(Run(Apply(d, defaults, s), defaults, steps), defaults, link);
  }

  /** An accepted request is durable at once exactly when it asked to be saved: otherwise a
      power cycle before the cloud connection brings back what flash held before. */
  lemma AcceptedRequestIsDurableIfSaved(d: Device, defaults: Defaults, i: Input, link: bool)
    requires Good(d) && d.state.ScanDevice? && i.request.Configure? && i.request.args.token != ""
    ensures var e := RunOnce(d, defaults, i);
            var a := i.request.args;
            && e.state.SwitchToSta? && VALID in e.ram.flags && e.ram.token == Fit(a.token)
            && Boot(e, defaults, link).ram == (if ToInt(a.save) != 0 then e.ram else Boot(d, defaults, link).ram)
            && (STORE in e.ram.flags <==> ToInt(a.save) == 0)
  {
    StepStaysGood(d, defaults, Call(i), d.flash);
    FlashWritten(d, defaults, Call(i));
  }

  /** Served, saved and cut off from power: the device starts with what the request said.  An
      empty user name or password means the token, an empty host or port the value from before. */
  lemma SavedRequestSurvivesPowerCycle(d: Device, defaults: Defaults, a: Arguments, link: bool)
    requires Good(d) && d.state.ScanDevice? && a.token != "" && ToInt(a.save) != 0
    ensures SetUpBy(Boot(Serve(d, Configure(a)), defaults, link).ram, d.ram, a)
  {
    AcceptedRequestIsDurableIfSaved(d, defaults, Input(Configure(a), false, NoCommand, false, false), link);
  }

  predicate SetUpBy(c: Config, before: Config, a: Arguments)
  {
    && c.flags == before.flags + {VALID, PNP} - {STORE}
    && c.token == Fit(a.token)
    && c.host == (if a.host == "" then before.host else Fit(a.host))
    && c.port == (if a.port == "" then before.port else ToInt(a.port) % 65536)
    && c.username == Fit(if a.username == "" then a.token else a.username)
    && c.password == Fit(if a.password == "" then a.token else a.password)
  }

  /** A request without a token is answered with an error and changes neither state nor flash,
      yet it has already changed the configuration in memory: host and port if they are given,
      and user name and password in any case, to the token of before if they are not given. */
  lemma RejectedRequestLeavesTraces(d: Device, a: Arguments)
    requires a.token == ""
    ensures var e := Serve(d, Configure(a));
            && e == d.(ram := e.ram)
            && e.ram.token == d.ram.token && e.ram.flags == d.ram.flags && e.ram.forceSave == (ToInt(a.save) != 0)
            && e.ram.host == (if a.host == "" then d.ram.host else Fit(a.host))
            && e.ram.port == (if a.port == "" then d.ram.port else ToInt(a.port) % 65536)
            && e.ram.username == (if a.username == "" then d.ram.token else Fit(a.username))
            && e.ram.password == (if a.password == "" then d.ram.token else Fit(a.password))
  {
  }

  /** A rejected request makes no difference to the next accepted one exactly when that one
      gives host and port itself, or the rejected one did not give them or gave what was there. */
  lemma RejectedRequestMatters(d: Device, a: Arguments, b: Arguments)
    requires a.token == "" && b.token != ""
    ensures Serve(Serve(d, Configure(a)), Configure(b)) == Serve(d, Configure(b)) <==>
            && (b.host != "" || a.host == "" || Fit(a.host) == d.ram.host)
            && (b.port != "" || a.port == "" || ToInt(a.port) % 65536 == d.ram.port)
  {
  }

  /** Once valid, a configuration stays valid until a reset or a restart. */
  lemma ValidSticks(d: Device, defaults: Defaults, i: Input)
    requires VALID in d.ram.flags
    requires !d.state.ResetConfig? && !d.state.ResetConfigReboot? && !d.state.Reboot?
    ensures VALID in RunOnce(d, defaults, i).ram.flags
  {
  }

  // ---------------------------------------------------------------- where the device gets to

  /** Two and three calls of `run` in a row. */
  function RunTwice(d: Device, defaults: Defaults, i: Input, j: Input): Device
  {
    RunOnce(RunOnce(d, defaults, i), defaults, j)
  }

  function RunThrice(d: Device, defaults: Defaults, i: Input, j: Input, k: Input): Device
  {
    RunOnce(RunTwice(d, defaults, i, j), defaults, k)
  }

  /** Provisioning succeeds: once a device with a network has accepted a request and the cloud
      accepts the device, it is connected and runs, and flash holds exactly its configuration. */
  lemma ProvisioningSucceeds(d: Device, defaults: Defaults, i: Input, j: Input, k: Input, l: Input)
    requires d.state.ScanDevice? && i.request.Configure? && i.request.args.token != ""
    requires d.netUp || j.link
    requires k.accepted
    ensures var e := RunOnce(RunThrice(d, defaults, i, j, k), defaults, l);
            && e.state.Running? && e.netUp && e.ram.connected && VALID in e.ram.flags && STORE !in e.ram.flags
            && e.ram.token == Fit(i.request.args.token)
            && (ToInt(i.request.args.save) == 0 ==> e.flash == Some(e.ram))
  {
  }

  /** A reset forgets everything: memory and flash hold the defaults with the API flag, and the
      device waits for a new configuration, now and after every power cycle. */
  predicate Forgotten(d: Device, defaults: Defaults)
  {
    && d.state.ScanDevice? && d.ram == defaults.Fresh().(flags := {API}) && d.flash == Some(d.ram)
    && (forall link :: Boot(d, defaults, link).ram == d.ram && Boot(d, defaults, link).state.ScanDevice?)
  }

  /** On request, and by the command to erase, even if the transport is lost in the same call. */
  lemma ResetForgets(d: Device, defaults: Defaults, i: Input, j: Input, k: Input)
    ensures d.state.ScanDevice? && i.request.RequestReset? ==> Forgotten(RunTwice(d, defaults, i, j), defaults)
    ensures d.state.Running? && i.command.Erase? ==> Forgotten(RunThrice(d, defaults, i, j, k), defaults)
  {
  }

  /** A reboot on request is a power cycle. */
  lemma RebootRestarts(d: Device, defaults: Defaults, i: Input, j: Input)
    requires d.state.ScanDevice? && i.request.RequestReboot?
    ensures RunTwice(d, defaults, i, j) == Boot(d, defaults, j.link)
  {
  }

  /** While running: without a command nothing changes, the two commands about networks come back,
      an upgrade or a lost transport leads to a new connection. */
  lemma RunningGoesOn(d: Device, defaults: Defaults, i: Input, j: Input)
    requires d.state.Running? && d.netUp && !i.command.Erase?
    ensures i.alive && i.command.NoCommand? ==> RunOnce(d, defaults, i) == d
    ensures i.alive && (i.command.ListWifi? || i.command.NewWifi?) ==> RunTwice(d, defaults, i, j) == d
    ensures !i.alive || i.command.Upgrade? ==> RunTwice(d, defaults, i, j) == d.(state := ConnectingCloud)
  {
  }
}
