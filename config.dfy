/**
 * The command line of src/config.c: a pass over argv that edits the socket
 * being described, the global settings, and finalises a socket at every
 * address argument by pushing it on the front of the configuration's list.
 */
module Config {
  import opened CStr

  /** The options of ts_socket_option; a socket's options field is the set of those whose bit is set. */
  datatype Opt = Do204 | DoClose | DoRedirect | DoSsl

  /** The bit of each option in the options word. */
  function Bit(o: Opt): nat {
    match o
    case Do204 => 1
    case DoClose => 2
    case DoRedirect => 4
    case DoSsl => 8
  }

  /** The options word a set of options stands for. */
  function Mask(options: set<Opt>): (m: nat)
    ensures m < 16
  {
    (if Do204 in options then 1 else 0) + (if DoClose in options then 2 else 0)
    + (if DoRedirect in options then 4 else 0) + (if DoSsl in options then 8 else 0)
  }

  /** The port a configuration without any address listens on. */
  const DefaultPort: string := "8000"

  /** options & bit != 0. */
  predicate Has(options: set<Opt>, bit: Opt) {
    bit in options
  }

  /** options &= ~bit. */
  function Clear(options: set<Opt>, bit: Opt): set<Opt> {
    options - {bit}
  }

  /** options |= bit. */
  function With(options: set<Opt>, bit: Opt): set<Opt> {
    options + {bit}
  }

  /**
   * A listening socket's settings.  A serve path of length 0 is "no serve
   * path"; `-S` only ever stores a non-empty one.
   */
  datatype Socket = Socket(
    ipaddr: Option<string>,
    port: Option<string>,
    options: set<Opt>,
    servePath: Option<string>,
    certPath: Option<string>)
  {
    /** The serve path the dispatcher sees: empty when none is set. */
    function ServePath(): string {
      if servePath.Some? then servePath.value else ""
    }
  }

  /**
   * ts_socket_load_defaults: no address, port, serve path or certificate
   * path; answers generate_204 URLs and redirects, nothing else.
   */
  function DefaultSocket(): (s: Socket)
    ensures s.ipaddr.None? && s.port.None? && s.servePath.None? && s.certPath.None?
    ensures Has(s.options, Do204) && Has(s.options, DoRedirect)
    ensures !Has(s.options, DoClose) && !Has(s.options, DoSsl)
  {
    Socket(None, None, {Do204, DoRedirect}, None, None)
  }

  /** The settings ts_configuration_parse produces: user, PID file, foreground, and the socket list. */
  datatype Settings = Settings(user: Option<string>, pidfile: Option<string>, foreground: bool, sockets: seq<Socket>)

  /** ts_configuration_create: nothing set, no socket. */
  const EmptySettings := Settings(None, None, false, [])

  /**
   * The end of a parse: a configuration (return code 0), a rejection
   * (return code -1; the settings as far as they got), or Undefined where
   * the source reads before an empty `-S` value.
   */
  datatype ArgsOutcome = Configured(settings: Settings) | Rejected(settings: Settings) | ArgsUndefined
  {
    function Rc(): int
      requires !ArgsUndefined?
    {
      if Configured? then 0 else -1
    }
  }

  /** argv[i][1]: the character after the dash, NUL for a lone "-". */
  function FlagChar(a: string): char {
    if |a| > 1 then a[1] else '\0'
  }

  /** An argument that starts with '-'. */
  predicate IsFlag(a: string) {
    |a| > 0 && a[0] == '-'
  }

  /** The flags that take no value. */
  predicate IsSwitch(c: char) {
    c == '2' || c == 'c' || c == 'f' || c == 'R'
  }

  /**
   * The socket an address argument finalises: it takes the address, and
   * keeps DO_SSL only with a certificate path.
   */
  function Finalised(cur: Socket, addr: string): (s: Socket)
    ensures s.ipaddr == Some(addr) && s.port == cur.port
    ensures s.servePath == cur.servePath && s.certPath == cur.certPath
    ensures Has(s.options, DoSsl) <==> Has(cur.options, DoSsl) && cur.certPath.Some?
    ensures Has(s.options, Do204) == Has(cur.options, Do204) && Has(s.options, DoClose) == Has(cur.options, DoClose)
    ensures Has(s.options, DoRedirect) == Has(cur.options, DoRedirect)
  {
    var options := if cur.certPath.None? then Clear(cur.options, DoSsl) else cur.options;
    assert cur.certPath.None? ==> !Has(options, DoSsl);
    cur.(ipaddr := Some(addr), options := options)
  }

  /** The effect of a switch on the pending socket: -2 clears DO_204, -c sets DO_CLOSE, -R clears DO_REDIRECT. */
  function SwitchSocket(c: char, cur: Socket): Socket {
    if c == '2' then cur.(options := Clear(cur.options, Do204))
    else if c == 'c' then cur.(options := With(cur.options, DoClose))
    else if c == 'R' then cur.(options := Clear(cur.options, DoRedirect))
    else cur
  }

  /** The effect of a switch on the settings: -f turns on the foreground mode. */
  function SwitchSettings(c: char, st: Settings): Settings {
    if c == 'f' then st.(foreground := true) else st
  }

  /** What a value-taking flag does: go on with new settings and socket, or end the parse. */
  datatype ValueStep = Continue(st: Settings, cur: Socket) | Stop(outcome: ArgsOutcome)

  /**
   * A value-taking flag c with its value v: -k and -p set the port, with and
   * without DO_SSL; -P, -u and -C store their value; -S stores a serve path
   * that ends in '/' and rejects any other; an unknown flag rejects.
   */
  function Value(c: char, v: string, st: Settings, cur: Socket): (r: ValueStep)
    ensures r.Continue? <==> IsStoringFlag(c) || (c == 'S' && v != [] && v[|v| - 1] == '/')
    ensures r.Stop? ==> r.outcome == (if c == 'S' && v == [] then ArgsUndefined else Rejected(st))
    ensures r.Continue? ==> r.st.sockets == st.sockets && r.cur.ipaddr == cur.ipaddr
    ensures r.Continue? && c == 'S' ==> r.cur.servePath == Some(v)
  {
    if c == 'k' then Continue(st, cur.(options := With(cur.options, DoSsl), port := Some(v)))
    else if c == 'p' then Continue(st, cur.(options := Clear(cur.options, DoSsl), port := Some(v)))
    else if c == 'P' then Continue(st.(pidfile := Some(v)), cur)
    else if c == 'u' then Continue(st.(user := Some(v)), cur)
    else if c == 'S' then
      if v == [] then Stop(ArgsUndefined)
      else if v[|v| - 1] != '/' then Stop(Rejected(st))
      else Continue(st, cur.(servePath := Some(v)))
    else if c == 'C' then Continue(st, cur.(certPath := Some(v)))
    else Stop(Rejected(st))
  }

  /**
   * The loop of ts_configuration_parse over the arguments still to come,
   * with the settings so far and the socket being described.  A flag whose
   * value is missing rejects; an address without a port rejects at once.
   */
  function Run(st: Settings, cur: Socket, args: seq<string>): (r: ArgsOutcome)
    ensures r.Configured? ==> |r.settings.sockets| > 0
    decreases |args|
  {
    if args == [] then Finish(st, cur)
    else if IsFlag(args[0]) then
      var c := FlagChar(args[0]);
      if IsSwitch(c) then
        Run(SwitchSettings(c, st), SwitchSocket(c, cur), args[1..])
      else if |args| < 2 then Rejected(st)
      else
        match Value(c, args[1], st, cur)
        case Stop(outcome) => outcome
        case Continue(st', cur') => Run(st', cur', args[2..])
    else if cur.port.None? then Rejected(st)
    else Run(st.(sockets := [Finalised(cur, args[0])] + st.sockets), DefaultSocket(), args[1..])
  }

  /**
   * After the loop: without any finalised socket the pending one becomes the
   * only socket, on port 8000 unless a port was given; otherwise the pending
   * socket is dropped.
   */
  function Finish(st: Settings, cur: Socket): (r: ArgsOutcome)
    ensures r.Configured? && |r.settings.sockets| > 0
    ensures st.sockets != [] ==> r.settings == st
    ensures st.sockets == [] ==> r.settings.sockets == [cur.(port := if cur.port.None? then Some(DefaultPort) else cur.port)]
  {
    if st.sockets == [] then
      Configured(st.(sockets := [cur.(port := if cur.port.None? then Some(DefaultPort) else cur.port)]))
    else Configured(st)
  }

  /** ts_configuration_parse on argv (argv[0] is the program name) and the settings it starts from. */
  function ParseArgs(st: Settings, argv: seq<string>): (r: ArgsOutcome)
    ensures r.Configured? ==> |r.settings.sockets| > 0
    ensures |argv| <= 1 && st.sockets == [] ==> r == Configured(st.(sockets := [DefaultSocket().(port := Some(DefaultPort))]))
  {
    Run(st, DefaultSocket(), if |argv| > 1 then argv[1..] else [])
  }

  /**
   * The parse only ever adds sockets, at the front: the sockets it started
   * with end the list it returns.
   */
  lemma {:induction false} RunKeepsSockets(st: Settings, cur: Socket, args: seq<string>)
    ensures var r := Run(st, cur, args);
      !r.ArgsUndefined? ==> |st.sockets| <= |r.settings.sockets| && r.settings.sockets[|r.settings.sockets| - |st.sockets|..] == st.sockets
    decreases |args|
  {
    if args != [] {
      if IsFlag(args[0]) {
        var c := FlagChar(args[0]);
        if IsSwitch(c) {
          RunKeepsSockets(SwitchSettings(c, st), SwitchSocket(c, cur), args[1..]);
        } else if |args| >= 2 {
          var step := Value(c, args[1], st, cur);
          if step.Continue? {
            RunKeepsSockets(step.st, step.cur, args[2..]);
          }
        }
      } else if cur.port.Some? {
        var st' := st.(sockets := [Finalised(cur, args[0])] + st.sockets);
        RunKeepsSockets(st', DefaultSocket(), args[1..]);
        RunAddress(st, cur, args);
        var r := Run(st', DefaultSocket(), args[1..]);
        if !r.ArgsUndefined? {
          SuffixOfConsSuffix(r.settings.sockets, Finalised(cur, args[0]), st.sockets);
        }
      }
    }
  }

  /** A list that ends with [x] + s ends with s. */
  lemma SuffixOfConsSuffix(t: seq<Socket>, x: Socket, s: seq<Socket>)
    requires |s| + 1 <= |t| && t[|t| - |s| - 1..] == [x] + s
    ensures |s| <= |t| && t[|t| - |s|..] == s
  {
    assert t[|t| - |s|..] == t[|t| - |s| - 1..][1..];
  }

  /** Run past a switch. */
  lemma RunSwitch(st: Settings, cur: Socket, args: seq<string>)
    requires args != [] && IsFlag(args[0]) && IsSwitch(FlagChar(args[0]))
    ensures Run(st, cur, args) == Run(SwitchSettings(FlagChar(args[0]), st), SwitchSocket(FlagChar(args[0]), cur), args[1..])
  {
  }

  /** Run past a value-taking flag and its value. */
  lemma RunValue(st: Settings, cur: Socket, args: seq<string>)
    requires |args| >= 2 && IsFlag(args[0]) && !IsSwitch(FlagChar(args[0]))
    ensures var step := Value(FlagChar(args[0]), args[1], st, cur);
      Run(st, cur, args) == if step.Stop? then step.outcome else Run(step.st, step.cur, args[2..])
  {
  }

  /** Run past an address argument, with a port set. */
  lemma RunAddress(st: Settings, cur: Socket, args: seq<string>)
    requires args != [] && !IsFlag(args[0]) && cur.port.Some?
    ensures Run(st, cur, args) == Run(st.(sockets := [Finalised(cur, args[0])] + st.sockets), DefaultSocket(), args[1..])
  {
  }

  // ---------------------------------------------------------------------------
  // Properties of the parse

  /** Each switch changes its own bit only: -2 clears DO_204, -c sets DO_CLOSE, -R clears DO_REDIRECT. */
  lemma SwitchEffects(cur: Socket)
    ensures !Has(SwitchSocket('2', cur).options, Do204)
    ensures Has(SwitchSocket('c', cur).options, DoClose)
    ensures !Has(SwitchSocket('R', cur).options, DoRedirect)
    ensures forall c, b :: IsSwitch(c) && c != FlagOf(b) ==> Has(SwitchSocket(c, cur).options, b) == Has(cur.options, b)
  {
  }

  /** The switch that acts on an option bit, NUL for DO_SSL. */
  function FlagOf(b: Opt): char {
    match b
    case Do204 => '2'
    case DoClose => 'c'
    case DoRedirect => 'R'
    case DoSsl => '\0'
  }

  /** -k sets DO_SSL, -p clears it; both set the port. */
  lemma PortFlags(v: string, st: Settings, cur: Socket)
    ensures Value('k', v, st, cur).Continue? && Value('k', v, st, cur).cur.port == Some(v)
    ensures Has(Value('k', v, st, cur).cur.options, DoSsl)
    ensures Value('p', v, st, cur).Continue? && Value('p', v, st, cur).cur.port == Some(v)
    ensures !Has(Value('p', v, st, cur).cur.options, DoSsl)
  {
  }

  /** A flag whose value is missing at the end of argv rejects the whole command line. */
  lemma MissingValueRejects(st: Settings, cur: Socket, a: string)
    requires IsFlag(a) && !IsSwitch(FlagChar(a))
    ensures Run(st, cur, [a]) == Rejected(st)
  {
  }

  /** A serve path that does not end in '/' rejects the command line. */
  lemma ServePathNeedsSlash(st: Settings, cur: Socket, v: string, rest: seq<string>)
    requires v != [] && v[|v| - 1] != '/'
    ensures Run(st, cur, ["-S", v] + rest) == Rejected(st)
  {
  }

  /** An address before any port rejects the command line at once. */
  lemma AddressNeedsPort(st: Settings, cur: Socket, a: string, rest: seq<string>)
    requires !IsFlag(a) && cur.port.None?
    ensures Run(st, cur, [a] + rest) == Rejected(st)
  {
  }

  /** The value-taking flags that store a value. */
  predicate IsStoringFlag(c: char) {
    c == 'k' || c == 'p' || c == 'P' || c == 'u' || c == 'C'
  }

  /** Given twice, a storing flag keeps its later value. */
  lemma LaterValueWins(st: Settings, cur: Socket, f: string, v1: string, v2: string, rest: seq<string>)
    requires IsFlag(f) && IsStoringFlag(FlagChar(f))
    ensures Run(st, cur, [f, v1, f, v2] + rest) == Run(st, cur, [f, v2] + rest)
  {
    var c := FlagChar(f);
    var s1 := Value(c, v1, st, cur);
    assert ([f, v1, f, v2] + rest)[2..] == [f, v2] + rest;
    assert Value(c, v2, s1.st, s1.cur) == Value(c, v2, st, cur);
  }

  /**
   * Arguments that neither name an address nor end the parse: switches,
   * and value-taking flags with a value they accept.
   */
  predicate OptionsOnly(args: seq<string>)
    decreases |args|
  {
    args == []
    || (IsFlag(args[0]) && IsSwitch(FlagChar(args[0])) && OptionsOnly(args[1..]))
    || (|args| >= 2 && IsFlag(args[0]) && IsStoringFlag(FlagChar(args[0])) && OptionsOnly(args[2..]))
  }

  /**
   * Options after the last address are dropped; without any address the
   * pending socket becomes the only one, and always has a port.
   */
  lemma {:induction false} OptionsOnlyFinish(st: Settings, cur: Socket, args: seq<string>)
    requires OptionsOnly(args)
    ensures Run(st, cur, args).Configured?
    ensures st.sockets != [] ==> Run(st, cur, args).settings.sockets == st.sockets
    ensures st.sockets == [] ==>
      var s := Run(st, cur, args).settings.sockets;
      |s| == 1 && s[0].ipaddr == cur.ipaddr && s[0].port.Some?
    decreases |args|
  {
    if args == [] {
    } else if IsFlag(args[0]) && IsSwitch(FlagChar(args[0])) && OptionsOnly(args[1..]) {
      var c := FlagChar(args[0]);
      RunSwitch(st, cur, args);
      OptionsOnlyFinish(SwitchSettings(c, st), SwitchSocket(c, cur), args[1..]);
    } else {
      RunValue(st, cur, args);
      var step := Value(FlagChar(args[0]), args[1], st, cur);
      OptionsOnlyFinish(step.st, step.cur, args[2..]);
    }
  }

  /** A command line of listeners, each "-p port address". */
  function Listen(xs: seq<(string, string)>): (r: seq<string>)
    ensures |r| == 3 * |xs|
  {
    if xs == [] then [] else ["-p", xs[0].0, xs[0].1] + Listen(xs[1..])
  }

  /** The socket a listener "-p port address" finalises. */
  function Listener(x: (string, string)): Socket {
    Finalised(DefaultSocket().(options := Clear(DefaultSocket().options, DoSsl), port := Some(x.0)), x.1)
  }

  /** The sockets of a run of listeners, as the parse stacks them. */
  function Stacked(xs: seq<(string, string)>): (r: seq<Socket>)
    ensures |r| == |xs|
  {
    if xs == [] then [] else Stacked(xs[1..]) + [Listener(xs[0])]
  }

  lemma {:induction false} ListenRun(st: Settings, xs: seq<(string, string)>, rest: seq<string>)
    requires forall i :: 0 <= i < |xs| ==> !IsFlag(xs[i].1)
    ensures Run(st, DefaultSocket(), Listen(xs) + rest)
      == Run(st.(sockets := Stacked(xs) + st.sockets), DefaultSocket(), rest)
    decreases |xs|
  {
    if xs != [] {
      ListenHead(st, xs, rest);
      var st1 := st.(sockets := [Listener(xs[0])] + st.sockets);
      ListenRun(st1, xs[1..], rest);
      assert Stacked(xs) + st.sockets == Stacked(xs[1..]) + st1.sockets;
    } else {
      assert Listen(xs) + rest == rest && Stacked(xs) + st.sockets == st.sockets;
    }
  }

  /** The first listener of a run: its socket goes on the front of the list. */
  lemma ListenHead(st: Settings, xs: seq<(string, string)>, rest: seq<string>)
    requires xs != [] && !IsFlag(xs[0].1)
    ensures Run(st, DefaultSocket(), Listen(xs) + rest)
      == Run(st.(sockets := [Listener(xs[0])] + st.sockets), DefaultSocket(), Listen(xs[1..]) + rest)
  {
    var args := Listen(xs) + rest;
    var d := DefaultSocket();
    assert args == ["-p", xs[0].0, xs[0].1] + (Listen(xs[1..]) + rest);
    assert args[0] == "-p" && args[1] == xs[0].0 && FlagChar("-p") == 'p';
    var cur := d.(options := Clear(d.options, DoSsl), port := Some(xs[0].0));
    assert Value('p', xs[0].0, st, d) == Continue(st, cur);
    RunValue(st, d, args);
    var tail := args[2..];
    assert tail[0] == xs[0].1 && tail[1..] == Listen(xs[1..]) + rest;
    RunAddress(st, cur, tail);
  }

  lemma {:induction false} StackedReversed(xs: seq<(string, string)>)
    ensures forall i :: 0 <= i < |xs| ==> Stacked(xs)[i] == Listener(xs[|xs| - 1 - i])
    decreases |xs|
  {
    if xs != [] {
      StackedReversed(xs[1..]);
    }
  }

  /**
   * Each address finalises a socket at the front of the list, so the list
   * holds the listeners in reverse argument order, each with its own port
   * and without DO_SSL.
   */
  lemma ListenersReversed(prog: string, xs: seq<(string, string)>)
    requires xs != [] && forall i :: 0 <= i < |xs| ==> !IsFlag(xs[i].1)
    ensures var r := ParseArgs(EmptySettings, [prog] + Listen(xs));
      r.Configured? && |r.settings.sockets| == |xs|
      && forall i :: 0 <= i < |xs| ==>
        var s := r.settings.sockets[i];
        s.ipaddr == Some(xs[|xs| - 1 - i].1) && s.port == Some(xs[|xs| - 1 - i].0) && !Has(s.options, DoSsl)
  {
    assert ([prog] + Listen(xs))[1..] == Listen(xs) + [];
    ListenRun(EmptySettings, xs, []);
    StackedReversed(xs);
  }

  /**
   * The configuration object the parser fills in: the global settings and
   * the socket list, most recently finalised socket first.
   */
  class Configuration {
    var user: Option<string>
    var pidfile: Option<string>
    var foreground: bool
    var sockets: seq<Socket>

    function Snapshot(): Settings
      reads this
    {
      Settings(user, pidfile, foreground, sockets)
    }

    /** ts_configuration_create. */
    constructor ()
      ensures Snapshot() == EmptySettings
    {
      user := None;
      pidfile := None;
      foreground := false;
      sockets := [];
    }

    /** ts_configuration_parse: 0 on a configuration, -1 on a rejection. */
    method Parse(argv: seq<string>) returns (rc: int)
      requires !ParseArgs(Snapshot(), argv).ArgsUndefined?
      modifies this
      ensures rc == ParseArgs(old(Snapshot()), argv).Rc()
      ensures Snapshot() == ParseArgs(old(Snapshot()), argv).settings
    {
      var cur := DefaultSocket();
      var error := false;
      var i := 1;
      ghost var goal := ParseArgs(Snapshot(), argv);
      ghost var rest := if |argv| > 1 then argv[1..] else [];
      while i < |argv| && !error
        invariant 1 <= i && goal != ArgsUndefined
        invariant !error ==> rest == if i < |argv| then argv[i..] else []
        invariant !error ==> Run(Snapshot(), cur, rest) == goal
        invariant error ==> goal == Rejected(Snapshot())
        decreases |argv| - i, !error
      {
        var a := argv[i];
        assert rest != [] && rest[0] == a;
        if IsFlag(a) {
          var c := FlagChar(a);
          if IsSwitch(c) {
            RunSwitch(Snapshot(), cur, rest);
            cur := ApplySwitch(c, cur);
            assert rest[1..] == if i + 1 < |argv| then argv[i + 1..] else [];
            rest := rest[1..];
          } else if i + 1 < |argv| {
            i := i + 1;
            var v := argv[i];
            assert rest[1] == v;
            RunValue(Snapshot(), cur, rest);
            cur, error := ApplyValue(c, v, cur);
            assert rest[2..] == if i + 1 < |argv| then argv[i + 1..] else [];
            rest := rest[2..];
          } else {
            error := true;
          }
        } else {
          if cur.port.None? {
            return -1;
          }
          RunAddress(Snapshot(), cur, rest);
          sockets := [Finalised(cur, a)] + sockets;
          cur := DefaultSocket();
          assert rest[1..] == if i + 1 < |argv| then argv[i + 1..] else [];
          rest := rest[1..];
        }
        i := i + 1;
      }
      if error {
        return -1;
      }
      if sockets == [] {
        if cur.port.None? {
          cur := cur.(port := Some(DefaultPort));
        }
        sockets := [cur];
      }
      return 0;
    }

    /** One of the flags -2, -c, -f and -R. */
    method ApplySwitch(c: char, cur: Socket) returns (cur': Socket)
      requires IsSwitch(c)
      modifies this
      ensures Snapshot() == SwitchSettings(c, old(Snapshot()))
      ensures cur' == SwitchSocket(c, cur)
    {
      cur' := cur;
      if c == '2' {
        cur' := cur.(options := Clear(cur.options, Do204));
      } else if c == 'c' {
        cur' := cur.(options := With(cur.options, DoClose));
      } else if c == 'R' {
        cur' := cur.(options := Clear(cur.options, DoRedirect));
      } else {
        foreground := true;
      }
    }

    /** A value-taking flag c with its value v; error is set where the parse ends. */
    method ApplyValue(c: char, v: string, cur: Socket) returns (cur': Socket, error: bool)
      requires Value(c, v, Snapshot(), cur) != Stop(ArgsUndefined)
      modifies this
      ensures error <==> Value(c, v, old(Snapshot()), cur).Stop?
      ensures error ==> Value(c, v, old(Snapshot()), cur).outcome == Rejected(Snapshot())
      ensures !error ==> Value(c, v, old(Snapshot()), cur) == Continue(Snapshot(), cur')
    {
      cur', error := cur, false;
      if c == 'k' {
        cur' := cur.(options := With(cur.options, DoSsl), port := Some(v));
      } else if c == 'p' {
        cur' := cur.(options := Clear(cur.options, DoSsl), port := Some(v));
      } else if c == 'P' {
        pidfile := Some(v);
      } else if c == 'u' {
        user := Some(v);
      } else if c == 'S' {
        if v[|v| - 1] != '/' {
          error := true;
        } else {
          cur' := cur.(servePath := Some(v));
        }
      } else if c == 'C' {
        cur' := cur.(certPath := Some(v));
      } else {
        error := true;
      }
    }
  }
}
