/** The provisioning object: configuration, flash and state updated in place by the request
    handler, the load/save/reset methods and the `run` switch. */
module Provisioner {
  import opened Basics
  import opened Query
  import opened ProvisionModel

  class Provisioner {
    const defaults: Defaults
    var config: Config
    var flash: Option<Config>
    var state: State
    var connected: bool

    constructor (defaults: Defaults, flash: Option<Config>, link: bool)
      ensures this.defaults == defaults
      ensures View() == Boot(Device(ZERO, flash, Max, false), defaults, link)
    {
      this.defaults := defaults;
      this.config, this.flash, this.state, this.connected := ZERO, flash, Max, false;
      new;
      var _ := ConnectNetwork(link);
    }

    function View(): Device
      reads this
    {
      Device(config, flash, state, connected)
    }

    method SetConfigFlag(f: ConfigFlag, value: bool)
      modifies this`config
      ensures config == SetFlag(old(config), f, value)
    {
      if value {
        config := config.(flags := config.flags + {f});
      } else {
        config := config.(flags := config.flags - {f});
      }
    }

    method ConfigLoad()
      modifies this`config, this`state
      ensures View() == ProvisionModel.ConfigLoad(old(View()), defaults)
    {
      if VALID in config.flags {
        return;
      }
      config := ZERO;
      if flash.Some? {
        config := flash.value;
      }
      if config.magic != MAGIC {
        config := defaults.Fresh();
      }
      if VALID !in config.flags {
        state := ScanDevice;
      }
    }

    method ConfigSave()
      modifies this`config, this`flash
      ensures View() == ProvisionModel.ConfigSave(old(View()))
    {
      if STORE !in config.flags {
        return;
      }
      SetConfigFlag(STORE, false);
      flash := Some(config);
    }

    method ConfigReset()
      modifies this`config, this`flash, this`state
      ensures View() == ProvisionModel.ConfigReset(old(View()), defaults)
    {
      config := defaults.Fresh();
      SetConfigFlag(API, true);
      SetConfigFlag(STORE, true);
      ConfigSave();
      state := ScanDevice;
    }

    method ConnectNetwork(link: bool) returns (up: bool)
      modifies this`config, this`state, this`connected
      ensures (up, View()) == ProvisionModel.ConnectNetwork(old(View()), defaults, link)
    {
      ConfigLoad();
      if !link {
        return false;
      }
      connected := true;
      return true;
    }

    /** The configuration branch of `runServer`, on the arguments it found. */
    method HandleConfig(a: Arguments)
      modifies this`config, this`flash, this`state
      ensures View() == Serve(old(View()), Configure(a))
    {
      TakeArguments(a);
      if a.token == "" {
        return;
      }
      SetConfigFlag(PNP, true);
      SetConfigFlag(VALID, true);
      SetConfigFlag(STORE, true);
      state := SwitchToSta;
      if config.forceSave {
        ConfigSave();
      }
    }

    method TakeArguments(a: Arguments)
      modifies this`config
      ensures config == Received(old(config), a)
    {
      config := config.(forceSave := ToInt(a.save) != 0);
      if a.token != "" {
        config := config.(token := Fit(a.token));
      }
      if a.host != "" {
        config := config.(host := Fit(a.host));
      }
      if a.port != "" {
        config := config.(port := ToInt(a.port) % 65536);
      }
      if a.username != "" {
        config := config.(username := Fit(a.username));
      } else {
        config := config.(username := config.token);
      }
      if a.password != "" {
        config := config.(password := Fit(a.password));
      } else {
        config := config.(password := config.token);
      }
    }

    /** A configuration request from its request line: every argument is looked up in the
        line, and in the decoded `body` when the line leaves it empty. */
    method ServeLine(line: string, body: map<string, string>)
      requires |ConfigLine(line)| < 0xFFFF_FFFF
      modifies this`config, this`flash, this`state
      ensures View() == Serve(old(View()), Configure(ArgumentsOf(line, body)))
    {
      var configLine := ConfigLine(line);
      var token := Lookup(configLine, body, "token");
      var host := Lookup(configLine, body, "host");
      var port := Lookup(configLine, body, "port");
      var username := Lookup(configLine, body, "username");
      var password := Lookup(configLine, body, "password");
      var save := Lookup(configLine, body, "save");
      HandleConfig(Arguments(token, host, port, username, password, save));
    }

    static method Lookup(url: string, body: map<string, string>, arg: string) returns (value: string)
      requires |url| < 0xFFFF_FFFF
      ensures value == ArgumentOf(url, body, arg)
    {
      value := FindArg(url, arg);
      if value == "" && arg in body {
        value := body[arg];
      }
    }

    method ServeOther(r: Request)
      requires !r.Configure?
      modifies this`state
      ensures View() == Serve(old(View()), r)
    {
      match r {
        case RequestReset => state := ResetConfig;
        case RequestReboot => state := Reboot;
        case Other =>
      }
    }

    method Run(i: Input)
      modifies this
      ensures View() == RunOnce(old(View()), defaults, i)
    {
      match state {
        case ScanDevice =>
          if i.request.Configure? {
            HandleConfig(i.request.args);
          } else {
            ServeOther(i.request);
          }
        case ConnectingCloud =>
          if i.accepted {
            config := config.(connected := true);
            ConfigSave();
            state := Connected;
          } else {
            state := ConnectingNetwork;
          }
        case Connected => state := Running;
        case Running =>
          state := Commanded(Running, i.command);
          if !i.alive && !state.ResetConfigReboot? {
            state := Disconnected;
          }
        case ConnectingNewNetwork => state := Running;
        case ResetConfig => ConfigReset();
        case ResetConfigReboot =>
          ConfigReset();
          state := Reboot;
        case RequestListWifi => state := Running;
        case Reboot => Restart(i.link);
        case _ =>
          var up := connected;
          if !up {
            up := ConnectNetwork(i.link);
          }
          if up {
            state := ConnectingCloud;
          }
      }
    }

    /** `ERaRestart` or a power cycle: only flash survives. */
    method Restart(link: bool)
      modifies this
      ensures View() == Boot(old(View()), defaults, link)
    {
      config, state, connected := ZERO, Max, false;
      var _ := ConnectNetwork(link);
    }
  }

  function ArgumentOf(url: string, body: map<string, string>, arg: string): string
  {
    var v := UrlFindArg(url, arg);
    if v == "" && arg in body then body[arg] else v
  }

  function ArgumentsFrom(url: string, body: map<string, string>): Arguments
  {
    Arguments(ArgumentOf(url, body, "token"), ArgumentOf(url, body, "host"), ArgumentOf(url, body, "port"),
              ArgumentOf(url, body, "username"), ArgumentOf(url, body, "password"), ArgumentOf(url, body, "save"))
  }

  function ArgumentsOf(line: string, body: map<string, string>): Arguments
  {
    ArgumentsFrom(ConfigLine(line), body)
  }

  /** End to end: a request line printed by any conforming client from its arguments, with no
      body, configures the device with exactly these arguments. */
  lemma PrintedRequestConfigures(style: Style, head: string, a: Arguments, tail: string)
    requires Conforms(style) && '?' !in head && ' ' !in tail
    requires Plain(PairsOf(a)) && |RequestLine(style, head, PairsOf(a), tail)| < 0xFFFF_FFFF
    ensures ArgumentsOf(RequestLine(style, head, PairsOf(a), tail), map[]) == a
  {
    var url := ConfigLine(RequestLine(style, head, PairsOf(a), tail));
    forall i | 0 <= i < 6
      ensures ArgumentOf(url, map[], PairsOf(a)[i].key) == PairsOf(a)[i].value
    {
      PrintedArgument(style, head, a, tail, i);
    }
    SixArguments(url, a);
  }

  /** From the client to the next power-up: a printed request with a token that asks to be
      saved is what the device starts with after a power cycle. */
  lemma PrintedRequestSurvivesPowerCycle(d: Device, defaults: Defaults, style: Style, head: string, a: Arguments,
                                         tail: string, link: bool)
    requires Conforms(style) && '?' !in head && ' ' !in tail
    requires Plain(PairsOf(a)) && |RequestLine(style, head, PairsOf(a), tail)| < 0xFFFF_FFFF
    requires Good(d) && d.state.ScanDevice? && a.token != "" && ToInt(a.save) != 0
    ensures var line := RequestLine(style, head, PairsOf(a), tail);
            SetUpBy(Boot(Serve(d, Configure(ArgumentsOf(line, map[]))), defaults, link).ram, d.ram, a)
  {
    PrintedRequestConfigures(style, head, a, tail);
    SavedRequestSurvivesPowerCycle(d, defaults, a, link);
  }

  /** And in terms of values: strings of 1 to 63 bytes and a port below 65536 that a client prints
      are, to the letter, what the device starts with. */
  lemma PrintedValuesSurvivePowerCycle(d: Device, defaults: Defaults, style: Style, head: string, a: Arguments,
                                       port: nat, tail: string, link: bool)
    requires Conforms(style) && '?' !in head && ' ' !in tail && Good(d) && d.state.ScanDevice?
    requires 0 < |a.token| <= 63 && 0 < |a.host| <= 63 && 0 < |a.username| <= 63 && 0 < |a.password| <= 63
    requires port < 65536 && a.port == Decimal(port) && a.save == Decimal(1)
    requires Plain(PairsOf(a)) && |RequestLine(style, head, PairsOf(a), tail)| < 0xFFFF_FFFF
    ensures var line := RequestLine(style, head, PairsOf(a), tail);
            var c := Boot(Serve(d, Configure(ArgumentsOf(line, map[]))), defaults, link).ram;
            && c.token == a.token && c.host == a.host && c.port == port
            && c.username == a.username && c.password == a.password && VALID in c.flags
  {
    SavePrinted();
    PrintedRequestSurvivesPowerCycle(d, defaults, style, head, a, tail, link);
    var line := RequestLine(style, head, PairsOf(a), tail);
    SetUpByValues(Boot(Serve(d, Configure(ArgumentsOf(line, map[]))), defaults, link).ram, d.ram, a, port);
  }

  lemma SavePrinted()
    ensures ToInt(Decimal(1)) == 1
  {
    ToIntInvertsPrinting(1, "");
    assert Decimal(1) + "" == Decimal(1);
  }

  lemma SetUpByValues(c: Config, before: Config, a: Arguments, port: nat)
    requires SetUpBy(c, before, a) && port < 65536 && a.port == Decimal(port)
    requires 0 < |a.token| <= 63 && 0 < |a.host| <= 63 && 0 < |a.username| <= 63 && 0 < |a.password| <= 63
    ensures c.token == a.token && c.host == a.host && c.port == port
    ensures c.username == a.username && c.password == a.password && VALID in c.flags
  {
    ToIntInvertsPrinting(port, "");
    assert Decimal(port) + "" == Decimal(port);
  }

  /** An argument that the line gives is taken from the line; one that it leaves empty or out is
      taken from the body, if that has it. */
  lemma BodyFillsIn(style: Style, head: string, pairs: seq<Pair>, tail: string, key: string, body: map<string, string>)
    requires Conforms(style) && Plain(pairs) && '?' !in head && ' ' !in tail && '=' !in key && '&' !in key
    requires |RequestLine(style, head, pairs, tail)| < 0xFFFF_FFFF
    ensures ArgumentOf(ConfigLine(RequestLine(style, head, pairs, tail)), body, key) ==
            if FirstValue(pairs, key) != "" then FirstValue(pairs, key) else if key in body then body[key] else ""
  {
    LookupInvertsPrinting(style, head, pairs, tail, key);
  }

  lemma SixArguments(url: string, a: Arguments)
    requires forall i :: 0 <= i < 6 ==> ArgumentOf(url, map[], PairsOf(a)[i].key) == PairsOf(a)[i].value
    ensures ArgumentsFrom(url, map[]) == a
  {
    var pairs := PairsOf(a);
    assert pairs[0].key == "token" && pairs[1].key == "host" && pairs[2].key == "port";
    assert pairs[3].key == "username" && pairs[4].key == "password" && pairs[5].key == "save";
  }

  lemma PrintedArgument(style: Style, head: string, a: Arguments, tail: string, i: nat)
    requires Conforms(style) && '?' !in head && ' ' !in tail && i < 6
    requires Plain(PairsOf(a)) && |RequestLine(style, head, PairsOf(a), tail)| < 0xFFFF_FFFF
    ensures ArgumentOf(ConfigLine(RequestLine(style, head, PairsOf(a), tail)), map[], PairsOf(a)[i].key) == PairsOf(a)[i].value
  {
    var pairs := PairsOf(a);
    assert pairs[i] in pairs;
    LookupInvertsPrinting(style, head, pairs, tail, pairs[i].key);
    KeysDiffer(a, i);
    FirstValueAt(pairs, i);
  }

  lemma KeysDiffer(a: Arguments, i: nat)
    requires i < 6
    ensures forall j :: 0 <= j < i ==> PairsOf(a)[j].key != PairsOf(a)[i].key
  {
    assert "host"[0] == 'h' && "port"[0] == 'p' && "save"[0] == 's' && "username"[0] == 'u' && "password"[0] == 'p';
  }

  lemma {:induction false} FirstValueAt(pairs: seq<Pair>, i: nat)
    requires i < |pairs| && forall j :: 0 <= j < i ==> pairs[j].key != pairs[i].key
    ensures FirstValue(pairs, pairs[i].key) == pairs[i].value
    decreases i
  {
    if i > 0 {
      assert pairs[0].key != pairs[i].key;
      FirstValueAt(pairs[1..], i - 1);
    }
  }

  function PairsOf(a: Arguments): seq<Pair>
  {
    [Pair("token", a.token), Pair("host", a.host), Pair("port", a.port),
     Pair("username", a.username), Pair("password", a.password), Pair("save", a.save)]
  }
}
