/** The console host's command line: options are consumed from the front, the rest is the client's. */
module ConsoleArguments {
  import opened ArgumentQuoting
  import opened Sequences

  /** The conversions of the C library: hexadecimal text to a number, decimal text to an integer. */
  datatype Integer = Throws | Converted(value: int, used: nat)
  datatype Library = Library(hex: string -> nat, decimal: string -> Integer)

  /** What a command line can set. */
  datatype Settings = Settings(
    client: string, vtMode: string, headless: bool, comServer: bool, createServer: bool, server: nat, signal: nat,
    forceV1: bool, noHandoff: bool, width: int, height: int, inheritCursor: bool, resizeQuirk: bool, win32Input: bool)

  const DEFAULTS: Settings :=
    Settings("", "", false, false, true, 0, 0, false, false, 0, 0, false, false, false)

  // ---------- Tokens ----------

  datatype Flag = ForceV1 | NoHandoff | ComServer | Headless | InheritCursor | ResizeQuirk | Win32Input | FilePath

  datatype Kind =
    | LegacyServer
    | Server
    | Signal
    | Switch(flag: Flag)
    | VtMode
    | Width
    | Height
    | Feature
    | Client(explicit: bool)

  predicate StartsWith(s: string, prefix: string) { |prefix| <= |s| && s[..|prefix|] == prefix }

  function KindOf(arg: string): Kind {
    if StartsWith(arg, "0x") then LegacyServer
    else if arg == "--server" then Server
    else if arg == "--signal" then Signal
    else if arg == "-ForceV1" then Switch(ForceV1)
    else if arg == "-ForceNoHandoff" then Switch(NoHandoff)
    else if arg == "-Embedding" then Switch(ComServer)
    else if StartsWith(arg, "\\??\\") then Switch(FilePath)
    else if arg == "--vtmode" then VtMode
    else if arg == "--width" then Width
    else if arg == "--height" then Height
    else if arg == "--feature" then Feature
    else if arg == "--headless" then Switch(Headless)
    else if arg == "--inheritcursor" then Switch(InheritCursor)
    else if arg == "--resizeQuirk" then Switch(ResizeQuirk)
    else if arg == "--win32input" then Switch(Win32Input)
    else Client(arg == "--")
  }

  function SetFlag(s: Settings, flag: Flag): Settings {
    match flag
    case ForceV1 => s.(forceV1 := true)
    case NoHandoff => s.(noHandoff := true)
    case ComServer => s.(comServer := true)
    case Headless => s.(headless := true)
    case InheritCursor => s.(inheritCursor := true)
    case ResizeQuirk => s.(resizeQuirk := true)
    case Win32Input => s.(win32Input := true)
    case FilePath => s
  }

  // ---------- One option ----------

  datatype Outcome = Outcome(settings: Settings, ok: bool, rest: seq<string>)

  /** A conversion to a 16-bit integer keeps the low bits. */
  function ToShort(v: int): int { (v + 0x8000) % 0x1_0000 - 0x8000 }

  /** A handle value: the new value, and whether it is acceptable. A handle is set once. */
  datatype Handle = Handle(value: nat, ok: bool)

  function HandleOf(lib: Library, text: string, current: nat): Handle {
    if !StartsWith(text, "0x") || current != 0 then Handle(current, false)
    else Handle(lib.hex(text), lib.hex(text) != 0)
  }

  function WithServer(lib: Library, s: Settings, text: string, rest: seq<string>): Outcome {
    var h := HandleOf(lib, text, s.server);
    Outcome(s.(server := h.value, createServer := s.createServer && !h.ok), h.ok, rest)
  }

  function WithSignal(lib: Library, s: Settings, text: string, rest: seq<string>): Outcome {
    var h := HandleOf(lib, text, s.signal);
    Outcome(s.(signal := h.value), h.ok, rest)
  }

  /** The number an option takes, if all of its text is one and it is not too large. */
  predicate Acceptable(lib: Library, text: string) {
    var n := lib.decimal(text);
    n.Converted? && n.value <= 0x7FFF && n.used == |text|
  }

  function Step(lib: Library, kind: Kind, args: seq<string>, s: Settings): Outcome
    requires args != []
  {
    match kind
    case LegacyServer => WithServer(lib, s, args[0], args[1..])
    case Switch(flag) => Outcome(SetFlag(s, flag), true, args[1..])
    case Client(explicit) => Outcome(s.(client := Join(if explicit then args[1..] else args)), true, [])
    case _ =>
      if |args| < 2 then Outcome(s, false, args)
      else ValueStep(lib, kind, args[1], args[2..], s)
  }

  function ValueStep(lib: Library, kind: Kind, value: string, rest: seq<string>, s: Settings): Outcome {
    match kind
    case Server => WithServer(lib, s, value, rest)
    case Signal => WithSignal(lib, s, value, rest)
    case VtMode => Outcome(s.(vtMode := value), true, rest)
    case Width =>
      if Acceptable(lib, value) then Outcome(s.(width := ToShort(lib.decimal(value).value)), true, rest)
      else Outcome(s, false, rest)
    case Height =>
      if Acceptable(lib, value) then Outcome(s.(height := ToShort(lib.decimal(value).value)), true, rest)
      else Outcome(s, false, rest)
    case _ => Outcome(s, value == "pty", rest)
  }

  /** All options, up to the client's part or the first failure, for any table of options. */
  function Parse(lib: Library, kindOf: string -> Kind, args: seq<string>, s: Settings): Outcome
    decreases |args|
  {
    if args == [] then Outcome(s, true, [])
    else
      var kind := kindOf(args[0]);
      var o := Step(lib, kind, args, s);
      if !o.ok || kind.Client? then o else Parse(lib, kindOf, o.rest, o.settings)
  }

  // ---------- What holds of every run ----------

  /** A run that succeeds has consumed every token, so the check at the end never fails. */
  lemma {:induction false} SuccessConsumesAll(lib: Library, kindOf: string -> Kind, args: seq<string>, s: Settings)
    ensures Parse(lib, kindOf, args, s).ok ==> Parse(lib, kindOf, args, s).rest == []
    decreases |args|
  {
    if args != [] {
      var kind := kindOf(args[0]);
      var o := Step(lib, kind, args, s);
      if o.ok && !kind.Client? {
        SuccessConsumesAll(lib, kindOf, o.rest, o.settings);
      }
    }
  }

  /** A server handle is to be created exactly as long as none was given. */
  predicate ServerAgrees(s: Settings) { s.createServer <==> s.server == 0 }

  /** Settings that agree on the server handle and on the client. */
  predicate SameServer(s: Settings, t: Settings) {
    s.server == t.server && s.createServer == t.createServer && s.client == t.client
  }

  lemma {:induction false} FlagKeeps(s: Settings, flag: Flag)
    ensures SameServer(SetFlag(s, flag), s)
  {
  }

  /** A server handle is either refused and nothing changes, or is the first one and is kept. */
  lemma {:induction false} ServerOutcome(lib: Library, s: Settings, text: string, rest: seq<string>)
    ensures var o := WithServer(lib, s, text, rest);
            && o.rest == rest && o.settings.client == s.client
            && (if o.ok then s.server == 0 && o.settings.server != 0 && !o.settings.createServer
                else SameServer(o.settings, s))
  {
  }

  lemma {:induction false} ValueOutcome(lib: Library, kind: Kind, value: string, rest: seq<string>, s: Settings)
    requires !kind.Server?
    ensures var o := ValueStep(lib, kind, value, rest, s); o.rest == rest && SameServer(o.settings, s)
  {
  }

  /** What one option does to the server handle and to the client. */
  lemma {:induction false} StepServer(lib: Library, kind: Kind, args: seq<string>, s: Settings)
    requires args != [] && !kind.Client?
    ensures var o := Step(lib, kind, args, s);
            && (o.ok ==> |args| >= Taken(kind) && o.rest == args[Taken(kind)..]) && o.settings.client == s.client
            && (if o.ok && (kind.LegacyServer? || kind.Server?)
                then s.server == 0 && o.settings.server != 0 && !o.settings.createServer
                else SameServer(o.settings, s))
  {
    if kind.LegacyServer? {
      ServerOutcome(lib, s, args[0], args[1..]);
    } else if kind.Switch? {
      FlagKeeps(s, kind.flag);
    } else if |args| >= 2 {
      if kind.Server? {
        ServerOutcome(lib, s, args[1], args[2..]);
      } else {
        ValueOutcome(lib, kind, args[1], args[2..], s);
      }
    }
  }

  /** That stays true on every run, the failing ones included. */
  lemma {:induction false} ServerStaysConsistent(lib: Library, kindOf: string -> Kind, args: seq<string>, s: Settings)
    requires ServerAgrees(s)
    ensures ServerAgrees(Parse(lib, kindOf, args, s).settings)
    decreases |args|
  {
    if args != [] {
      var kind := kindOf(args[0]);
      var o := Step(lib, kind, args, s);
      if !kind.Client? {
        StepServer(lib, kind, args, s);
      }
      if o.ok && !kind.Client? {
        ServerStaysConsistent(lib, kindOf, o.rest, o.settings);
      }
    }
  }

  /** How many tokens an option takes. */
  function Taken(kind: Kind): nat { if kind.LegacyServer? || kind.Switch? then 1 else 2 }

  /** The tokens left when options and their values are skipped. */
  function ClientTokens(kindOf: string -> Kind, args: seq<string>): seq<string> {
    if args == [] then []
    else
      var kind := kindOf(args[0]);
      if kind.Client? then if kind.explicit then args[1..] else args
      else if |args| < Taken(kind) then []
      else ClientTokens(kindOf, args[Taken(kind)..])
  }

  /** Splitting the stored client command line gives back exactly the client's tokens. */
  lemma {:induction false} ClientLineSplits(lib: Library, kindOf: string -> Kind, args: seq<string>, s: Settings)
    requires s.client == "" && Parse(lib, kindOf, args, s).ok
    ensures Split(Parse(lib, kindOf, args, s).settings.client) == ClientTokens(kindOf, args)
    decreases |args|
  {
    if args == [] {
      SplitJoin([]);
    } else {
      var kind := kindOf(args[0]);
      if kind.Client? {
        SplitJoin(if kind.explicit then args[1..] else args);
      } else {
        StepServer(lib, kind, args, s);
        ClientLineSplits(lib, kindOf, args[Taken(kind)..], Step(lib, kind, args, s).settings);
      }
    }
  }

  /** How many server handles the options name. */
  function ServerOptions(kindOf: string -> Kind, args: seq<string>): nat {
    if args == [] then 0
    else
      var kind := kindOf(args[0]);
      if kind.Client? || |args| < Taken(kind) then 0
      else (if kind.LegacyServer? || kind.Server? then 1 else 0) + ServerOptions(kindOf, args[Taken(kind)..])
  }

  /** A successful run saw at most one server handle, and saw one exactly when it set one. */
  lemma {:induction false} ServerGivenOnce(lib: Library, kindOf: string -> Kind, args: seq<string>, s: Settings)
    requires Parse(lib, kindOf, args, s).ok
    ensures var server := Parse(lib, kindOf, args, s).settings.server;
            && ServerOptions(kindOf, args) == (if server != s.server then 1 else 0)
            && (s.server != 0 ==> server == s.server)
    decreases |args|
  {
    if args != [] {
      var kind := kindOf(args[0]);
      if !kind.Client? {
        StepServer(lib, kind, args, s);
        ServerGivenOnce(lib, kindOf, args[Taken(kind)..], Step(lib, kind, args, s).settings);
      }
    }
  }

  // ---------- The class ----------

  /** The tokens of the command line, or the failure of the splitter. */
  datatype Tokens = NoTokens | Tokens(argv: seq<string>)

  /** The tokens after the program's name. */
  function Given(tokens: Tokens): seq<string> {
    if tokens.NoTokens? || tokens.argv == [] then [] else tokens.argv[1..]
  }

  class Arguments {
    const commandline: string
    const lib: Library
    var settings: Settings

    constructor (commandline: string, lib: Library)
      ensures this.commandline == commandline && this.lib == lib && settings == DEFAULTS
    {
      this.commandline := commandline;
      this.lib := lib;
      settings := DEFAULTS;
    }

    static method ConsumeArg(args: seq<string>, index: nat) returns (args': seq<string>)
      requires index < |args|
      ensures args' == args[..index] + args[index + 1..]
    {
      args' := args[..index] + args[index + 1..];
    }

    static method GetArgumentValue(args: seq<string>, index: nat) returns (args': seq<string>, ok: bool, value: string)
      requires index < |args|
      ensures ok <==> index + 1 < |args|
      ensures if ok then value == args[index + 1] && args' == args[..index] + args[index + 2..] else args' == args
    {
      args', ok, value := args, index + 1 < |args|, "";
      if ok {
        args' := ConsumeArg(args', index);
        value := args'[index];
        args' := ConsumeArg(args', index);
      }
    }

    method GetNumber(args: seq<string>, index: nat) returns (args': seq<string>, ok: bool, value: int)
      requires index < |args|
      ensures ok <==> index + 1 < |args| && Acceptable(lib, args[index + 1])
      ensures ok ==> value == ToShort(lib.decimal(args[index + 1]).value)
      ensures args' == if index + 1 < |args| then args[..index] + args[index + 2..] else args
    {
      var text;
      value := 0;
      args', ok, text := GetArgumentValue(args, index);
      if ok {
        var n := lib.decimal(text);
        if n.Throws? || n.value > 0x7FFF || n.used != |text| {
          ok := false;
        } else {
          value := ToShort(n.value);
        }
      }
    }

    method ParseHandleArg(text: string, current: nat) returns (value: nat, ok: bool)
      ensures Handle(value, ok) == HandleOf(lib, text, current)
    {
      value, ok := current, true;
      if !StartsWith(text, "0x") {
        ok := false;
      } else if current == 0 {
        value := lib.hex(text);
        if value == 0 {
          ok := false;
        }
      } else {
        ok := false;
      }
    }

    /** Joins everything from `index` on, quoted, after dropping the explicit marker. */
    method GetClientCommandline(args: seq<string>, index: nat, skipFirst: bool) returns (args': seq<string>)
      requires index < |args| && (skipFirst ==> args[index] == "--")
      modifies this
      ensures settings == old(settings).(client := Join(if skipFirst then args[index + 1..] else args[index..]))
      ensures args' == args[..index]
    {
      args' := args;
      if skipFirst {
        args' := ConsumeArg(args', index);
      }
      assert args'[index..] == if skipFirst then args[index + 1..] else args[index..];
      var line := JoinFrom(args', index);
      settings := settings.(client := line);
      args' := args'[..index];
    }

    static method JoinFrom(args: seq<string>, index: nat) returns (line: string)
      requires index <= |args|
      ensures line == Join(args[index..])
    {
      ghost var whole := Join(args[index..]);
      var j := index;
      line := "";
      while j < |args|
        invariant index <= j <= |args| && line + Join(args[j..]) == whole
      {
        ghost var text := Join(args[j..]);
        var quoted := EscapeArgument(args[j]);
        assert args[j..][1..] == args[j + 1..];
        if j + 1 < |args| {
          MovePiece(whole, line, quoted + [' '], Join(args[j + 1..]), text);
          Associate(line, quoted, [' ']);
          line := line + quoted;
          line := line + " ";
        } else {
          assert args[j + 1..] == [];
          line := line + quoted;
        }
        j := j + 1;
      }
      assert args[j..] == [] && line + [] == line;
    }

    /** One token, with the value that belongs to it. The index stays where it is: at the front. */
    method ParseToken(args: seq<string>, i: nat) returns (args': seq<string>, ok: bool, stop: bool)
      requires i == 0 && args != []
      modifies this
      ensures Outcome(settings, ok, args') == Step(lib, KindOf(args[0]), args, old(settings))
      ensures stop == KindOf(args[0]).Client?
    {
      var kind := KindOf(args[i]);
      args', ok, stop := args, false, false;
      if kind.LegacyServer? || kind.Server? {
        args', ok := ParseServer(args, i, kind);
      } else if kind.Switch? {
        settings := SetFlag(settings, kind.flag);
        args' := ConsumeArg(args, i);
        ok := true;
      } else if kind.Client? {
        args' := GetClientCommandline(args, i, kind.explicit);
        ok, stop := true, true;
      } else {
        args', ok := ParseValue(args, i, kind);
      }
    }

    method ParseServer(args: seq<string>, i: nat, kind: Kind) returns (args': seq<string>, ok: bool)
      requires i == 0 && args != [] && (kind.LegacyServer? || kind.Server?)
      modifies this
      ensures Outcome(settings, ok, args') == Step(lib, kind, args, old(settings))
    {
      var text := args[i];
      if kind.Server? {
        args', ok, text := GetArgumentValue(args, i);
      } else {
        args' := ConsumeArg(args, i);
        ok := true;
      }
      if ok {
        ok := SetServer(text, args');
      }
    }

    method SetServer(text: string, ghost rest: seq<string>) returns (ok: bool)
      modifies this
      ensures Outcome(settings, ok, rest) == WithServer(lib, old(settings), text, rest)
    {
      var value;
      value, ok := ParseHandleArg(text, settings.server);
      settings := settings.(server := value);
      if ok {
        settings := settings.(createServer := false);
      }
    }

    method ParseValue(args: seq<string>, i: nat, kind: Kind) returns (args': seq<string>, ok: bool)
      requires i == 0 && args != []
      requires kind.Signal? || kind.VtMode? || kind.Width? || kind.Height? || kind.Feature?
      modifies this
      ensures Outcome(settings, ok, args') == Step(lib, kind, args, old(settings))
    {
      if kind.Width? || kind.Height? {
        var value;
        args', ok, value := GetNumber(args, i);
        if ok {
          settings := if kind.Width? then settings.(width := value) else settings.(height := value);
        }
      } else {
        var text;
        args', ok, text := GetArgumentValue(args, i);
        if ok {
          if kind.Signal? {
            var value;
            value, ok := ParseHandleArg(text, settings.signal);
            settings := settings.(signal := value);
          } else if kind.VtMode? {
            settings := settings.(vtMode := text);
          } else {
            ok := text == "pty";
          }
        }
      }
    }

    /** The whole command line; the program's own name is the first token. */
    method ParseCommandline(tokens: Tokens) returns (ok: bool)
      modifies this
      ensures commandline == "" ==> ok && settings == old(settings)
      ensures commandline != "" && tokens.NoTokens? ==> !ok && settings == old(settings)
      ensures commandline != "" && tokens.Tokens? ==>
                var o := Parse(lib, KindOf, Given(tokens), old(settings));
                settings == o.settings && ok == o.ok
      ensures ServerAgrees(old(settings)) ==> ServerAgrees(settings)
      ensures commandline != "" && ok && old(settings).client == "" ==>
                Split(settings.client) == ClientTokens(KindOf, Given(tokens))
    {
      if commandline == "" {
        return true;
      }
      if tokens.NoTokens? {
        return false;
      }
      ok := ParseTokens(Given(tokens));
      if ServerAgrees(old(settings)) {
        ServerStaysConsistent(lib, KindOf, Given(tokens), old(settings));
      }
      if ok && old(settings).client == "" {
        ClientLineSplits(lib, KindOf, Given(tokens), old(settings));
      }
    }

    method ParseTokens(tokens: seq<string>) returns (ok: bool)
      modifies this
      ensures var o := Parse(lib, KindOf, tokens, old(settings)); settings == o.settings && ok == o.ok
    {
      ghost var result := Parse(lib, KindOf, tokens, settings);
      var args, i, stop := tokens, 0, false;
      ok := true;
      while i < |args| && ok && !stop
        invariant i == 0 && (stop ==> ok)
        invariant result == if ok && !stop then Parse(lib, KindOf, args, settings) else Outcome(settings, ok, args)
        decreases if ok && !stop then |args| + 1 else 0
      {
        ghost var before, was := args, settings;
        args, ok, stop := ParseToken(args, i);
        assert Outcome(settings, ok, args) == Step(lib, KindOf(before[0]), before, was);
      }
      SuccessConsumesAll(lib, KindOf, tokens, old(settings));
      assert ok ==> args == [];
    }
  }
}
