/** What a command line asks for, said by the texts of its options. */
module ConsoleOptions {
  import opened ArgumentQuoting
  import opened ConsoleArguments
  import opened Sequences

  // ---------- The texts ----------

  datatype Named = ServerHandle | SignalHandle | Mode | Columns | Rows | Extra

  /** Options that are followed by a value. */
  function ValueText(n: Named): string {
    match n
    case ServerHandle => "--server"
    case SignalHandle => "--signal"
    case Mode => "--vtmode"
    case Columns => "--width"
    case Rows => "--height"
    case Extra => "--feature"
  }

  datatype Toggle = Legacy | Stay | Embedded | Hidden | Inherit | Quirk | Raw

  /** Options that stand alone. */
  function ToggleText(n: Toggle): string {
    match n
    case Legacy => "-ForceV1"
    case Stay => "-ForceNoHandoff"
    case Embedded => "-Embedding"
    case Hidden => "--headless"
    case Inherit => "--inheritcursor"
    case Quirk => "--resizeQuirk"
    case Raw => "--win32input"
  }

  predicate IsHandle(a: string) { |a| >= 2 && a[0] == '0' && a[1] == 'x' }

  predicate IsFilePath(a: string) { |a| >= 4 && a[0] == '\\' && a[1] == '?' && a[2] == '?' && a[3] == '\\' }

  /** One option: a value with its name, a switch, a server handle without its name, or a path, which is skipped. */
  datatype Asked =
    | With(name: Named, value: string)
    | Switched(toggle: Toggle)
    | Bare(handle: string)
    | Skipped(path: string)

  predicate Spellable(a: Asked) { (a.Bare? ==> IsHandle(a.handle)) && (a.Skipped? ==> IsFilePath(a.path)) }

  function Spelled(a: Asked): seq<string> {
    match a
    case With(name, value) => [ValueText(name), value]
    case Switched(toggle) => [ToggleText(toggle)]
    case Bare(handle) => [handle]
    case Skipped(path) => [path]
  }

  /** The tokens of a list of options. */
  function AllSpelled(opts: seq<Asked>): seq<string> {
    if opts == [] then [] else Spelled(opts[0]) + AllSpelled(opts[1..])
  }

  predicate AllSpellable(opts: seq<Asked>) { forall k :: 0 <= k < |opts| ==> Spellable(opts[k]) }

  /** What may follow the options: nothing, the client's part, or an option whose value is missing. */
  predicate Follows(behind: seq<string>) {
    behind == [] ||
    (&& !IsHandle(behind[0]) && !IsFilePath(behind[0]) && (forall n :: behind[0] != ToggleText(n))
     && forall n :: behind[0] == ValueText(n) ==> |behind| == 1)
  }

  predicate Dangling(behind: seq<string>) { behind != [] && exists n :: behind[0] == ValueText(n) }

  // ---------- Every command line is options and a rest ----------

  lemma {:induction false} Decompose(args: seq<string>) returns (opts: seq<Asked>, behind: seq<string>)
    ensures AllSpellable(opts) && Follows(behind) && args == AllSpelled(opts) + behind
    decreases |args|, 1
  {
    opts, behind := [], args;
    if args == [] {
    } else if IsHandle(args[0]) {
      opts, behind := DecomposeMore(args, Bare(args[0]), args[1..]);
    } else if IsFilePath(args[0]) {
      opts, behind := DecomposeMore(args, Skipped(args[0]), args[1..]);
    } else if n :| args[0] == ToggleText(n) {
      opts, behind := DecomposeMore(args, Switched(n), args[1..]);
    } else if n :| args[0] == ValueText(n) && |args| > 1 {
      opts, behind := DecomposeMore(args, With(n, args[1]), args[2..]);
    }
  }

  lemma {:induction false} DecomposeMore(args: seq<string>, a: Asked, rest: seq<string>)
    returns (opts: seq<Asked>, behind: seq<string>)
    requires |rest| < |args| && Spellable(a) && args == Spelled(a) + rest
    ensures AllSpellable(opts) && Follows(behind) && args == AllSpelled(opts) + behind
    decreases |args|, 0
  {
    var more;
    more, behind := Decompose(rest);
    opts := [a] + more;
    assert opts[1..] == more;
    Associate(Spelled(a), AllSpelled(more), behind);
  }

  // ---------- The table of options ----------

  lemma {:induction false} NoPrefix(a: string)
    ensures a != [] && a[0] == '-' ==> !StartsWith(a, "0x") && !StartsWith(a, "\\??\\")
  {
    if StartsWith(a, "0x") { assert a[..2][0] == '0'; }
    if StartsWith(a, "\\??\\") { assert a[..4][0] == '\\'; }
  }

  /** Letters by which the options of one length differ. */
  lemma {:induction false} LettersApart()
    ensures "--server"[3] == 'e' && "--signal"[3] == 'i' && "--vtmode"[3] == 't' && "--height"[3] == 'e'
    ensures "--server"[2] == 's' && "--height"[2] == 'h' && "-ForceV1"[3] == 'r'
    ensures "-ForceNoHandoff"[1] == 'F' && "--inheritcursor"[1] == '-'
    ensures "-Embedding"[1] == 'E' && "--headless"[1] == '-'
  {
  }

  function ValueKind(n: Named): Kind {
    match n
    case ServerHandle => Server
    case SignalHandle => Signal
    case Mode => VtMode
    case Columns => Width
    case Rows => Height
    case Extra => Feature
  }

  lemma {:induction false} ValueKinds(n: Named)
    ensures KindOf(ValueText(n)) == ValueKind(n)
  {
    NoPrefix(ValueText(n));
    LettersApart();
  }

  function ToggleFlag(n: Toggle): Flag {
    match n
    case Legacy => ForceV1
    case Stay => NoHandoff
    case Embedded => ComServer
    case Hidden => Headless
    case Inherit => InheritCursor
    case Quirk => ResizeQuirk
    case Raw => Win32Input
  }

  lemma {:induction false} ToggleKinds(n: Toggle)
    ensures KindOf(ToggleText(n)) == Switch(ToggleFlag(n))
  {
    NoPrefix(ToggleText(n));
    LettersApart();
  }

  lemma {:induction false} HandlePrefix(text: string)
    ensures StartsWith(text, "0x") <==> IsHandle(text)
  {
    if IsHandle(text) { assert text[..2] == "0x"; }
    if StartsWith(text, "0x") { assert text[..2][0] == '0' && text[..2][1] == 'x'; }
  }

  lemma {:induction false} PathPrefix(text: string)
    ensures StartsWith(text, "\\??\\") <==> IsFilePath(text)
  {
    if IsFilePath(text) { assert text[..4] == "\\??\\"; }
    if StartsWith(text, "\\??\\") {
      assert text[..4][0] == '\\' && text[..4][1] == '?' && text[..4][2] == '?' && text[..4][3] == '\\';
    }
  }

  lemma {:induction false} BareKinds(text: string)
    ensures IsHandle(text) ==> KindOf(text) == LegacyServer
    ensures IsFilePath(text) ==> KindOf(text) == Switch(FilePath)
  {
    HandlePrefix(text);
    PathPrefix(text);
  }

  lemma {:induction false} ClientKind(a: string)
    requires !IsHandle(a) && !IsFilePath(a)
    requires (forall n :: a != ToggleText(n)) && forall n :: a != ValueText(n)
    ensures KindOf(a) == Client(a == "--")
  {
    HandlePrefix(a);
    PathPrefix(a);
    assert ValueText(ServerHandle) == "--server" && ValueText(SignalHandle) == "--signal"
             && ValueText(Mode) == "--vtmode";
    assert ValueText(Columns) == "--width" && ValueText(Rows) == "--height" && ValueText(Extra) == "--feature";
    assert ToggleText(Legacy) == "-ForceV1" && ToggleText(Stay) == "-ForceNoHandoff"
             && ToggleText(Embedded) == "-Embedding";
    assert ToggleText(Hidden) == "--headless" && ToggleText(Inherit) == "--inheritcursor";
    assert ToggleText(Quirk) == "--resizeQuirk" && ToggleText(Raw) == "--win32input";
  }

  // ---------- What one option does ----------

  /** The text of a server handle, in either form. */
  function HandleText(a: Asked): seq<string> {
    if a.Bare? then [a.handle] else if a.With? && a.name == ServerHandle then [a.value] else []
  }

  function SignalText(a: Asked): seq<string> {
    if a.With? && a.name == SignalHandle then [a.value] else []
  }

  /** What the texts have to be, each option by itself. */
  predicate Proper(lib: Library, a: Asked) {
    match a
    case With(name, value) =>
      (match name
       case ServerHandle => IsHandle(value) && lib.hex(value) != 0
       case SignalHandle => IsHandle(value) && lib.hex(value) != 0
       case Mode => true
       case Columns => SmallNumber(lib, value)
       case Rows => SmallNumber(lib, value)
       case Extra => value == "pty")
    case Switched(_) => true
    case Bare(handle) => lib.hex(handle) != 0
    case Skipped(_) => true
  }

  /** All of the text is a number, and it is not above the largest 16-bit integer. */
  predicate SmallNumber(lib: Library, text: string) {
    var n := lib.decimal(text); n.Converted? && n.used == |text| && n.value <= 32767
  }

  /** Whether an option is accepted, given the settings so far: a handle is given only once. */
  predicate Good(lib: Library, a: Asked, s: Settings) {
    && Proper(lib, a)
    && (HandleText(a) != [] ==> s.server == 0) && (SignalText(a) != [] ==> s.signal == 0)
  }

  function Number(lib: Library, text: string): int {
    var n := lib.decimal(text); if n.Converted? then ToShort(n.value) else 0
  }

  /** What one option changes. */
  datatype Change =
    | Nothing
    | ToServer(server: nat)
    | ToSignal(signal: nat)
    | ToMode(mode: string)
    | ToWidth(width: int)
    | ToHeight(height: int)
    | TurnOn(toggle: Toggle)

  function ChangeOf(lib: Library, a: Asked): Change {
    match a
    case With(name, value) => ValueChange(lib, name, value)
    case Switched(toggle) => TurnOn(toggle)
    case Bare(handle) => ToServer(lib.hex(handle))
    case Skipped(_) => Nothing
  }

  function ValueChange(lib: Library, name: Named, value: string): Change {
    match name
    case ServerHandle => ToServer(lib.hex(value))
    case SignalHandle => ToSignal(lib.hex(value))
    case Mode => ToMode(value)
    case Columns => ToWidth(Number(lib, value))
    case Rows => ToHeight(Number(lib, value))
    case Extra => Nothing
  }

  function Changed(s: Settings, c: Change): Settings {
    match c
    case Nothing => s
    case ToServer(server) => s.(server := server, createServer := false)
    case ToSignal(signal) => s.(signal := signal)
    case ToMode(mode) => s.(vtMode := mode)
    case ToWidth(width) => s.(width := width)
    case ToHeight(height) => s.(height := height)
    case TurnOn(toggle) => TurnedOn(s, toggle)
  }

  function TurnedOn(s: Settings, n: Toggle): Settings {
    match n
    case Legacy => s.(forceV1 := true)
    case Stay => s.(noHandoff := true)
    case Embedded => s.(comServer := true)
    case Hidden => s.(headless := true)
    case Inherit => s.(inheritCursor := true)
    case Quirk => s.(resizeQuirk := true)
    case Raw => s.(win32Input := true)
  }

  function Effect(lib: Library, a: Asked, s: Settings): Settings { Changed(s, ChangeOf(lib, a)) }

  lemma {:induction false} ServerIs(lib: Library, s: Settings, text: string, rest: seq<string>)
    ensures var o := WithServer(lib, s, text, rest);
            && (o.ok <==> IsHandle(text) && lib.hex(text) != 0 && s.server == 0)
            && (o.ok ==> o.settings == s.(server := lib.hex(text), createServer := false) && o.rest == rest)
  {
    HandlePrefix(text);
  }

  lemma {:induction false} SignalIs(lib: Library, s: Settings, text: string, rest: seq<string>)
    ensures var o := WithSignal(lib, s, text, rest);
            && (o.ok <==> IsHandle(text) && lib.hex(text) != 0 && s.signal == 0)
            && (o.ok ==> o.settings == s.(signal := lib.hex(text)) && o.rest == rest)
  {
    HandlePrefix(text);
  }

  /** What a step must do for an option at the front. */
  predicate Takes(lib: Library, kind: Kind, args: seq<string>, s: Settings, a: Asked, rest: seq<string>)
    requires args != []
  {
    var o := Step(lib, kind, args, s);
    && !kind.Client? && (o.ok <==> Good(lib, a, s)) && (o.ok ==> o.settings == Effect(lib, a, s) && o.rest == rest)
  }

  lemma {:induction false} HandleTaken(lib: Library, args: seq<string>, s: Settings)
    requires |args| > 1
    ensures Takes(lib, Server, args, s, With(ServerHandle, args[1]), args[2..])
  {
    ServerIs(lib, s, args[1], args[2..]);
    assert Step(lib, Server, args, s) == WithServer(lib, s, args[1], args[2..]);
  }

  lemma {:induction false} SignalTaken(lib: Library, args: seq<string>, s: Settings)
    requires |args| > 1
    ensures Takes(lib, Signal, args, s, With(SignalHandle, args[1]), args[2..])
  {
    SignalIs(lib, s, args[1], args[2..]);
    assert Step(lib, Signal, args, s) == WithSignal(lib, s, args[1], args[2..]);
  }

  lemma {:induction false} ModeTaken(lib: Library, args: seq<string>, s: Settings)
    requires |args| > 1
    ensures Takes(lib, VtMode, args, s, With(Mode, args[1]), args[2..])
    ensures Takes(lib, Feature, args, s, With(Extra, args[1]), args[2..])
  {
  }

  lemma {:induction false} SizeTaken(lib: Library, args: seq<string>, s: Settings)
    requires |args| > 1
    ensures Takes(lib, Width, args, s, With(Columns, args[1]), args[2..])
    ensures Takes(lib, Height, args, s, With(Rows, args[1]), args[2..])
  {
  }

  lemma {:induction false} ValueTaken(lib: Library, n: Named, args: seq<string>, s: Settings)
    requires |args| > 1
    ensures Takes(lib, ValueKind(n), args, s, With(n, args[1]), args[2..])
  {
    match n
    case ServerHandle => HandleTaken(lib, args, s);
    case SignalHandle => SignalTaken(lib, args, s);
    case Mode => ModeTaken(lib, args, s);
    case Columns => SizeTaken(lib, args, s);
    case Rows => SizeTaken(lib, args, s);
    case Extra => ModeTaken(lib, args, s);
  }

  lemma {:induction false} ToggleTaken(lib: Library, n: Toggle, args: seq<string>, s: Settings)
    requires args != []
    ensures Takes(lib, Switch(ToggleFlag(n)), args, s, Switched(n), args[1..])
  {
  }

  lemma {:induction false} BareTaken(lib: Library, args: seq<string>, s: Settings)
    requires args != []
    ensures IsHandle(args[0]) ==> Takes(lib, LegacyServer, args, s, Bare(args[0]), args[1..])
  {
    ServerIs(lib, s, args[0], args[1..]);
  }

  lemma {:induction false} PathTaken(lib: Library, args: seq<string>, s: Settings)
    requires args != []
    ensures Takes(lib, Switch(FilePath), args, s, Skipped(args[0]), args[1..])
  {
  }

  /** One option at the front of a command line, whatever follows it. */
  lemma {:induction false} OptionTaken(lib: Library, a: Asked, rest: seq<string>, s: Settings)
    requires Spellable(a)
    ensures var args := Spelled(a) + rest; args != [] && Takes(lib, KindOf(args[0]), args, s, a, rest)
  {
    var args := Spelled(a) + rest;
    match a
    case With(name, value) =>
      assert args[0] == ValueText(name) && args[1] == value && args[2..] == rest;
      ValueKinds(name);
      ValueTaken(lib, name, args, s);
    case Switched(toggle) =>
      assert args[0] == ToggleText(toggle) && args[1..] == rest;
      ToggleKinds(toggle);
      ToggleTaken(lib, toggle, args, s);
    case Bare(handle) =>
      assert args[0] == handle && args[1..] == rest;
      BareKinds(handle);
      BareTaken(lib, args, s);
    case Skipped(path) =>
      assert args[0] == path && args[1..] == rest;
      BareKinds(path);
      PathTaken(lib, args, s);
  }

  // ---------- What all of them do ----------

  predicate AllGood(lib: Library, opts: seq<Asked>, s: Settings)
    decreases |opts|
  {
    opts == [] || (Good(lib, opts[0], s) && AllGood(lib, opts[1..], Effect(lib, opts[0], s)))
  }

  function EffectAll(lib: Library, opts: seq<Asked>, s: Settings): Settings
    decreases |opts|
  {
    if opts == [] then s else EffectAll(lib, opts[1..], Effect(lib, opts[0], s))
  }

  function WithClient(s: Settings, behind: seq<string>): Settings {
    if behind == [] then s else s.(client := Join(if behind[0] == "--" then behind[1..] else behind))
  }

  /** A run takes the options one after another and then the client's part. */
  lemma {:induction false} ParseIsEffects(lib: Library, opts: seq<Asked>, behind: seq<string>, s: Settings)
    requires AllSpellable(opts) && Follows(behind)
    ensures var o := Parse(lib, KindOf, AllSpelled(opts) + behind, s);
            && (o.ok <==> AllGood(lib, opts, s) && !Dangling(behind))
            && (o.ok ==> o.settings == WithClient(EffectAll(lib, opts, s), behind))
    decreases |opts|
  {
    if opts == [] {
      assert AllSpelled(opts) + behind == behind;
      ParseBehind(lib, behind, s);
    } else {
      var rest := AllSpelled(opts[1..]) + behind;
      Associate(Spelled(opts[0]), AllSpelled(opts[1..]), behind);
      OptionTaken(lib, opts[0], rest, s);
      if Good(lib, opts[0], s) {
        ParseIsEffects(lib, opts[1..], behind, Effect(lib, opts[0], s));
      }
    }
  }

  lemma {:induction false} ParseBehind(lib: Library, behind: seq<string>, s: Settings)
    requires Follows(behind)
    ensures var o := Parse(lib, KindOf, behind, s);
            (o.ok <==> !Dangling(behind)) && (o.ok ==> o.settings == WithClient(s, behind))
  {
    if behind == [] {
    } else if n :| behind[0] == ValueText(n) {
      ValueKinds(n);
    } else {
      ClientKind(behind[0]);
    }
  }

  // ---------- Setting by setting ----------

  /** The value of the last option of a name, if there is one. */
  function Last(opts: seq<Asked>, n: Named): seq<string> {
    if opts == [] then []
    else if Last(opts[1..], n) != [] then Last(opts[1..], n)
    else if opts[0].With? && opts[0].name == n then [opts[0].value]
    else []
  }

  predicate Given(opts: seq<Asked>, n: Toggle) { Switched(n) in opts }

  function Handles(opts: seq<Asked>): seq<string> {
    if opts == [] then [] else HandleText(opts[0]) + Handles(opts[1..])
  }

  function Signals(opts: seq<Asked>): seq<string> {
    if opts == [] then [] else SignalText(opts[0]) + Signals(opts[1..])
  }

  /** The low 16 bits of a number, as a signed integer. */
  predicate LowBits(v: int, n: int) { -32768 <= v <= 32767 && (n - v) % 65536 == 0 }

  /** A size is the number after its last option. */
  predicate Sized(lib: Library, texts: seq<string>, before: int, after: int) {
    if texts == [] then after == before
    else lib.decimal(texts[0]).Converted? && LowBits(after, lib.decimal(texts[0]).value)
  }

  lemma {:induction false} NumberIsLow(lib: Library, text: string)
    requires lib.decimal(text).Converted?
    ensures LowBits(Number(lib, text), lib.decimal(text).value)
  {
  }

  lemma {:induction false} TurnedOnKeeps(s: Settings, n: Toggle)
    ensures var r := TurnedOn(s, n);
            && r.width == s.width && r.height == s.height && r.vtMode == s.vtMode && r.client == s.client
            && r.server == s.server && r.createServer == s.createServer && r.signal == s.signal
  {
    match n {
      case Legacy =>
      case Stay =>
      case Embedded =>
      case Hidden =>
      case Inherit =>
      case Quirk =>
      case Raw =>
    }
  }

  lemma {:induction false} TurnedOnFlag(s: Settings, n: Toggle, m: Toggle)
    ensures FlagOf(TurnedOn(s, n), m) <==> FlagOf(s, m) || n == m
  {
    match n {
      case Legacy =>
      case Stay =>
      case Embedded =>
      case Hidden =>
      case Inherit =>
      case Quirk =>
      case Raw =>
    }
  }

  lemma {:induction false} SizeChange(s: Settings, c: Change)
    requires c.ToWidth? || c.ToHeight?
    ensures Changed(s, c) == s.(width := if c.ToWidth? then c.width else s.width,
                                height := if c.ToHeight? then c.height else s.height)
  {
  }

  lemma {:induction false} HandleChange(s: Settings, c: Change)
    requires c.ToServer? || c.ToSignal?
    ensures Changed(s, c) == s.(server := if c.ToServer? then c.server else s.server,
                                createServer := s.createServer && !c.ToServer?,
                                signal := if c.ToSignal? then c.signal else s.signal)
  {
  }

  /** A change leaves all other settings as they are. */
  lemma {:induction false} ChangedValues(s: Settings, c: Change)
    ensures var r := Changed(s, c);
            && r.width == (if c.ToWidth? then c.width else s.width)
            && r.height == (if c.ToHeight? then c.height else s.height)
            && r.vtMode == (if c.ToMode? then c.mode else s.vtMode) && r.client == s.client
  {
    if c.TurnOn? {
      TurnedOnKeeps(s, c.toggle);
    } else if c.ToServer? || c.ToSignal? {
      HandleChange(s, c);
    } else if c.ToWidth? || c.ToHeight? {
      SizeChange(s, c);
    }
  }

  lemma {:induction false} ChangedHandles(s: Settings, c: Change)
    ensures var r := Changed(s, c);
            && r.server == (if c.ToServer? then c.server else s.server)
            && (r.createServer <==> s.createServer && !c.ToServer?)
            && r.signal == (if c.ToSignal? then c.signal else s.signal)
  {
    if c.TurnOn? {
      TurnedOnKeeps(s, c.toggle);
    } else if c.ToServer? || c.ToSignal? {
      HandleChange(s, c);
    } else if c.ToWidth? || c.ToHeight? {
      SizeChange(s, c);
    }
  }

  lemma {:induction false} ChangedFlag(s: Settings, c: Change, n: Toggle)
    ensures FlagOf(Changed(s, c), n) <==> FlagOf(s, n) || c == TurnOn(n)
  {
    if c.TurnOn? {
      TurnedOnFlag(s, c.toggle, n);
    } else if c.ToServer? || c.ToSignal? {
      HandleChange(s, c);
    } else if c.ToWidth? || c.ToHeight? {
      SizeChange(s, c);
    }
  }

  lemma {:induction false} EffectOnSizes(lib: Library, a: Asked, s: Settings)
    requires Good(lib, a, s)
    ensures var r := Effect(lib, a, s);
            && Sized(lib, if a.With? && a.name == Columns then [a.value] else [], s.width, r.width)
            && Sized(lib, if a.With? && a.name == Rows then [a.value] else [], s.height, r.height)
  {
    ChangedValues(s, ChangeOf(lib, a));
    if a.With? && (a.name == Columns || a.name == Rows) {
      NumberIsLow(lib, a.value);
    }
  }

  lemma {:induction false} SizesDecided(lib: Library, opts: seq<Asked>, s: Settings)
    requires AllGood(lib, opts, s)
    ensures var r := EffectAll(lib, opts, s);
            Sized(lib, Last(opts, Columns), s.width, r.width) && Sized(lib, Last(opts, Rows), s.height, r.height)
    decreases |opts|
  {
    if opts != [] {
      EffectOnSizes(lib, opts[0], s);
      SizesDecided(lib, opts[1..], Effect(lib, opts[0], s));
    }
  }

  lemma {:induction false} EffectOnMode(lib: Library, a: Asked, s: Settings)
    ensures var r := Effect(lib, a, s);
            r.client == s.client && r.vtMode == if a.With? && a.name == Mode then a.value else s.vtMode
  {
    ChangedValues(s, ChangeOf(lib, a));
  }

  lemma {:induction false} ModeDecided(lib: Library, opts: seq<Asked>, s: Settings)
    ensures var r, m := EffectAll(lib, opts, s), Last(opts, Mode);
            r.client == s.client && r.vtMode == if m == [] then s.vtMode else m[0]
    decreases |opts|
  {
    if opts != [] {
      EffectOnMode(lib, opts[0], s);
      ModeDecided(lib, opts[1..], Effect(lib, opts[0], s));
    }
  }

  /** The setting that a switch turns on. */
  function FlagOf(s: Settings, n: Toggle): bool {
    match n
    case Legacy => s.forceV1
    case Stay => s.noHandoff
    case Embedded => s.comServer
    case Hidden => s.headless
    case Inherit => s.inheritCursor
    case Quirk => s.resizeQuirk
    case Raw => s.win32Input
  }

  lemma {:induction false} EffectOnFlag(lib: Library, a: Asked, s: Settings, n: Toggle)
    ensures FlagOf(Effect(lib, a, s), n) <==> FlagOf(s, n) || a == Switched(n)
  {
    ChangedFlag(s, ChangeOf(lib, a), n);
  }

  lemma {:induction false} FlagDecided(lib: Library, opts: seq<Asked>, s: Settings, n: Toggle)
    ensures FlagOf(EffectAll(lib, opts, s), n) <==> FlagOf(s, n) || Given(opts, n)
    decreases |opts|
  {
    if opts != [] {
      EffectOnFlag(lib, opts[0], s, n);
      FlagDecided(lib, opts[1..], Effect(lib, opts[0], s), n);
      HeadTail(opts);
    }
  }

  /** At most one handle of a kind, and then it is the setting. */
  predicate HandleDecided(lib: Library, texts: seq<string>, before: nat, after: nat) {
    if texts == [] then after == before
    else |texts| == 1 && before == 0 && IsHandle(texts[0]) && after == lib.hex(texts[0]) != 0
  }

  lemma {:induction false} EffectOnHandles(lib: Library, a: Asked, s: Settings)
    requires Spellable(a) && Good(lib, a, s)
    ensures var r := Effect(lib, a, s);
            && HandleDecided(lib, HandleText(a), s.server, r.server)
            && (r.createServer <==> s.createServer && HandleText(a) == [])
            && HandleDecided(lib, SignalText(a), s.signal, r.signal)
  {
    ChangedHandles(s, ChangeOf(lib, a));
  }

  lemma {:induction false} HandlesDecided(lib: Library, opts: seq<Asked>, s: Settings)
    requires AllSpellable(opts) && AllGood(lib, opts, s)
    ensures var r := EffectAll(lib, opts, s);
            && HandleDecided(lib, Handles(opts), s.server, r.server)
            && (r.createServer <==> s.createServer && Handles(opts) == [])
            && HandleDecided(lib, Signals(opts), s.signal, r.signal)
    decreases |opts|
  {
    if opts != [] {
      EffectOnHandles(lib, opts[0], s);
      HandlesDecided(lib, opts[1..], Effect(lib, opts[0], s));
      NoneFirst(HandleText(opts[0]), Handles(opts[1..]));
      NoneFirst(SignalText(opts[0]), Signals(opts[1..]));
    }
  }

  lemma {:induction false} NoneFirst(a: seq<string>, b: seq<string>)
    ensures (a == [] ==> a + b == b) && (b == [] ==> a + b == a)
  {
  }

  // ---------- The whole command line ----------

  /** How many handles there is room for. */
  function Room(handle: nat): nat { if handle == 0 then 1 else 0 }

  predicate AllProper(lib: Library, opts: seq<Asked>) { forall k :: 0 <= k < |opts| ==> Proper(lib, opts[k]) }

  lemma {:induction false} ProperFirst(lib: Library, opts: seq<Asked>)
    requires opts != []
    ensures AllProper(lib, opts) <==> Proper(lib, opts[0]) && AllProper(lib, opts[1..])
  {
    assert forall k :: 0 <= k < |opts[1..]| ==> opts[1..][k] == opts[k + 1];
    assert forall k :: 0 < k < |opts| ==> opts[k] == opts[1..][k - 1];
  }

  lemma {:induction false} AllGoodIff(lib: Library, opts: seq<Asked>, s: Settings)
    requires AllSpellable(opts)
    ensures AllGood(lib, opts, s) <==>
            AllProper(lib, opts) && |Handles(opts)| <= Room(s.server) && |Signals(opts)| <= Room(s.signal)
    decreases |opts|
  {
    if opts != [] {
      ProperFirst(lib, opts);
      AllGoodIff(lib, opts[1..], Effect(lib, opts[0], s));
      if Good(lib, opts[0], s) {
        EffectOnHandles(lib, opts[0], s);
      }
    }
  }

  /**
    Which command lines are accepted, whatever options they are made of: every value is there and
    is what its option asks for, and each of the two handles is given at most once.
   */
  lemma {:induction false} AcceptedIff(lib: Library, opts: seq<Asked>, behind: seq<string>, s: Settings)
    requires AllSpellable(opts) && Follows(behind)
    ensures Parse(lib, KindOf, AllSpelled(opts) + behind, s).ok <==>
            && !Dangling(behind) && AllProper(lib, opts)
            && |Handles(opts)| <= Room(s.server) && |Signals(opts)| <= Room(s.signal)
  {
    ParseIsEffects(lib, opts, behind, s);
    AllGoodIff(lib, opts, s);
  }

  /** What an accepted command line sets: each setting by its own option, and nothing by any other. */
  lemma {:induction false} OptionsDecide(lib: Library, opts: seq<Asked>, behind: seq<string>, s: Settings)
    requires AllSpellable(opts) && Follows(behind) && Parse(lib, KindOf, AllSpelled(opts) + behind, s).ok
    ensures var r := Parse(lib, KindOf, AllSpelled(opts) + behind, s).settings;
            && Sized(lib, Last(opts, Columns), s.width, r.width) && Sized(lib, Last(opts, Rows), s.height, r.height)
            && r.vtMode == (if Last(opts, Mode) == [] then s.vtMode else Last(opts, Mode)[0])
            && HandleDecided(lib, Handles(opts), s.server, r.server)
            && (r.createServer <==> s.createServer && Handles(opts) == [])
            && HandleDecided(lib, Signals(opts), s.signal, r.signal)
            && (r.forceV1 <==> s.forceV1 || Given(opts, Legacy))
            && (r.noHandoff <==> s.noHandoff || Given(opts, Stay))
            && (r.comServer <==> s.comServer || Given(opts, Embedded))
            && (r.headless <==> s.headless || Given(opts, Hidden))
            && (r.inheritCursor <==> s.inheritCursor || Given(opts, Inherit))
            && (r.resizeQuirk <==> s.resizeQuirk || Given(opts, Quirk))
            && (r.win32Input <==> s.win32Input || Given(opts, Raw))
            && (if behind == [] then r.client == s.client
                else Split(r.client) == if behind[0] == "--" then behind[1..] else behind)
  {
    ParseIsEffects(lib, opts, behind, s);
    SizesDecided(lib, opts, s);
    ModeDecided(lib, opts, s);
    HandlesDecided(lib, opts, s);
    FlagsDecided(lib, opts, s, EffectAll(lib, opts, s));
    if behind != [] {
      SplitJoin(if behind[0] == "--" then behind[1..] else behind);
    }
  }

  /** What the first command line of an object sets: everything the options do not name is off, zero or empty. */
  lemma {:induction false} FreshOptionsDecide(lib: Library, opts: seq<Asked>, behind: seq<string>)
    requires AllSpellable(opts) && Follows(behind) && Parse(lib, KindOf, AllSpelled(opts) + behind, DEFAULTS).ok
    ensures var r := Parse(lib, KindOf, AllSpelled(opts) + behind, DEFAULTS).settings;
            && Sized(lib, Last(opts, Columns), 0, r.width) && Sized(lib, Last(opts, Rows), 0, r.height)
            && r.vtMode == (if Last(opts, Mode) == [] then "" else Last(opts, Mode)[0])
            && HandleDecided(lib, Handles(opts), 0, r.server) && (r.createServer <==> Handles(opts) == [])
            && HandleDecided(lib, Signals(opts), 0, r.signal)
            && (r.forceV1 <==> Given(opts, Legacy)) && (r.noHandoff <==> Given(opts, Stay))
            && (r.comServer <==> Given(opts, Embedded)) && (r.headless <==> Given(opts, Hidden))
            && (r.inheritCursor <==> Given(opts, Inherit)) && (r.resizeQuirk <==> Given(opts, Quirk))
            && (r.win32Input <==> Given(opts, Raw)) && (behind == [] ==> r.client == "")
  {
    OptionsDecide(lib, opts, behind, DEFAULTS);
  }

  lemma {:induction false} FlagsDecided(lib: Library, opts: seq<Asked>, s: Settings, r: Settings)
    requires r == EffectAll(lib, opts, s)
    ensures (r.forceV1 <==> s.forceV1 || Given(opts, Legacy)) && (r.noHandoff <==> s.noHandoff || Given(opts, Stay))
    ensures (r.comServer <==> s.comServer || Given(opts, Embedded))
              && (r.headless <==> s.headless || Given(opts, Hidden))
    ensures r.inheritCursor <==> s.inheritCursor || Given(opts, Inherit)
    ensures r.resizeQuirk <==> s.resizeQuirk || Given(opts, Quirk)
    ensures r.win32Input <==> s.win32Input || Given(opts, Raw)
  {
    FlagDecided(lib, opts, s, Legacy);
    FlagDecided(lib, opts, s, Stay);
    FlagDecided(lib, opts, s, Embedded);
    FlagDecided(lib, opts, s, Hidden);
    FlagDecided(lib, opts, s, Inherit);
    FlagDecided(lib, opts, s, Quirk);
    FlagDecided(lib, opts, s, Raw);
  }
}
