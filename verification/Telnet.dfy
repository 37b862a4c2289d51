/** The telnet decoder of src/Telnet.c, which is given one byte at a time. */
module Telnet {
  import opened Common

  newtype byte = x: int | 0 <= x < 0x100

  const IAC: byte := 255
  const DONT: byte := 254
  const DO: byte := 253
  const WONT: byte := 252
  const WILL: byte := 251
  const SB: byte := 250
  const AYT: byte := 246
  const NOP: byte := 241
  const SE: byte := 240
  const TELOPT_ECHO: byte := 1
  const TELOPT_SGA: byte := 3
  const TELOPT_NAWS: byte := 31
  const TELOPT_NEW_ENVIRON: byte := 39

  const DEL: byte := 0x7f
  const KEY_BS := 8
  const KEY_RETURN := 13
  const NO_KEY := -1
  const MAX_SUB_BUF := 8
  const MAX_TERM := 500
  const TERM_WIDTH := 80
  const TERM_HEIGHT := 24

  datatype State =
    | TsData | TsIac | TsArg | TsWill | TsDo | TsNaws
    | TsNewEnviron | TsNewEnvironIs | TsNewEnvironVar | TsNewEnvironVal

  /** The variable that carries a user name */
  const USER: seq<byte> := [85, 83, 69, 82]

  /** The fields of the decoder */
  datatype View = View(state: State, inSub: int, width: int, height: int, buf: seq<byte>)

  /** !strcmp(in_sub_buf + 1, "USER") */
  predicate IsUser(buf: seq<byte>)
    requires |buf| == MAX_SUB_BUF
  {
    buf[1..5] == USER && buf[5] == 0
  }

  /** What is always so, whatever bytes have come in: nothing is ever stored outside the buffer, and the size
      of the terminal stays within its bounds. */
  ghost predicate Sound(v: View) {
    && |v.buf| == MAX_SUB_BUF && v.inSub >= 0
    && 1 < v.width <= MAX_TERM && 2 < v.height <= MAX_TERM
    && (v.state == TsNewEnvironVar ==> 1 <= v.inSub <= MAX_SUB_BUF - 2)
    && (v.state == TsNewEnvironVal ==> 2 <= v.inSub <= MAX_SUB_BUF - 1)
  }

  function Clamped(size: int, least: int, standard: int): int {
    if size <= least then standard else if size > MAX_TERM then MAX_TERM else size
  }

  function Word(high: byte, low: byte): int {
    high as int * 0x100 + low as int
  }

  class Decoder {
    var state: State
    var inSub: int
    var termWidth: int
    var termHeight: int
    const inSubBuf: array<byte>

    ghost function Now(): View
      reads this, inSubBuf
    {
      View(state, inSub, termWidth, termHeight, inSubBuf[..])
    }

    /** new_Telnet */
    constructor ()
      ensures Sound(Now()) && state == TsData && inSub == 0 && fresh(inSubBuf)
        && (termWidth, termHeight) == (TERM_WIDTH, TERM_HEIGHT)
    {
      state, inSub, termWidth, termHeight := TsData, 0, TERM_WIDTH, TERM_HEIGHT;
      inSubBuf := new byte[MAX_SUB_BUF](_ => 0);
    }

    /** telnet_negotiations: takes one byte, and returns a key or -1, what is sent back, and whether the window
        has got a new size. */
    method Negotiate(c: byte) returns (key: int, reply: seq<byte>, resized: bool)
      requires Sound(Now())
      modifies this, inSubBuf
      ensures Sound(Now()) && Now() == Step(old(Now()), c).after && key == Step(old(Now()), c).key
      ensures resized <==> old(state) == TsNaws && old(inSub) > 4
      ensures reply == Reply(old(state), c)
    {
      key, reply, resized := NO_KEY, [], false;
      match state {
        case TsData =>
          if c == IAC {
            state := TsIac;
          } else {
            key := Filter(c);
          }
        case TsIac => key, reply := Command(c);
        case TsWill =>
          reply := Reply(TsWill, c);
          state := TsData;
        case TsDo =>
          reply := Reply(TsDo, c);
          state := TsData;
        case TsNaws => resized := WindowByte(c);
        case TsNewEnviron =>
          if c == 0 {
            state := TsNewEnvironIs;
          }
          inSub := 1;
          inSubBuf[inSub] := 0;
        case TsNewEnvironIs =>
          if c == 0 || c == 2 || c == 3 {
            inSub := 1;
            inSubBuf[inSub] := 0;
            state := TsNewEnvironVar;
          } else if c == IAC {
            state := TsIac;
          } else {
            state := TsData;
          }
        case TsNewEnvironVar => VariableByte(c);
        case TsNewEnvironVal => key := ValueByte(c);
        case TsArg => state := if inSub != 0 then TsIac else TsData;
      }
    }

    /** The byte after IAC */
    method Command(c: byte) returns (key: int, reply: seq<byte>)
      requires Sound(Now()) && state == TsIac
      modifies `state, `inSub
      ensures Sound(Now()) && Now() == Step(old(Now()), c).after && key == Step(old(Now()), c).key
        && reply == Reply(TsIac, c)
    {
      key, reply := NO_KEY, [];
      if c == IAC {
        state := TsData;
        key := 0;
      } else if c == AYT {
        reply := YES;
        state := TsData;
      } else if c == NOP {
        state := TsData;
      } else if c == SB {
        inSub := inSub + 1;
      } else if c == SE {
        inSub := inSub - 1;
        if inSub < 0 {
          inSub := 0;
        }
        state := TsData;
      } else if c == WILL {
        state := TsWill;
      } else if c == DO {
        state := TsDo;
      } else if c == TELOPT_NAWS {
        state := TsNaws;
      } else if c == TELOPT_NEW_ENVIRON {
        state := TsNewEnviron;
      } else {
        state := TsArg;
      }
    }

    /** A byte of a window size. The byte behind the fourth, which should be IAC, sets the size. */
    method WindowByte(c: byte) returns (resized: bool)
      requires Sound(Now()) && state == TsNaws
      modifies `state, `inSub, `termWidth, `termHeight, inSubBuf
      ensures Sound(Now()) && Now() == Step(old(Now()), c).after && (resized <==> old(inSub) > 4)
    {
      resized := inSub > 4;
      if inSub <= 4 {
        inSubBuf[inSub] := c;
        inSub := inSub + 1;
      } else {
        termWidth := Word(inSubBuf[1], inSubBuf[2]);
        if termWidth <= 1 {
          termWidth := TERM_WIDTH;
        }
        if termWidth > MAX_TERM {
          termWidth := MAX_TERM;
        }
        termHeight := Word(inSubBuf[3], inSubBuf[4]);
        if termHeight <= 2 {
          termHeight := TERM_HEIGHT;
        }
        if termHeight > MAX_TERM {
          termHeight := MAX_TERM;
        }
        inSub := 0;
        state := TsIac;
      }
    }

    /** A byte of the name of a variable */
    method VariableByte(c: byte)
      requires Sound(Now()) && state == TsNewEnvironVar
      modifies `state, `inSub, inSubBuf
      ensures Sound(Now()) && Now() == Step(old(Now()), c).after
    {
      if c == 1 {
        inSubBuf[inSub] := 0;
        inSub := inSub + 1;
        state := TsNewEnvironVal;
      } else if c == IAC {
        state := TsIac;
      } else if inSub < MAX_SUB_BUF - 2 {
        inSubBuf[inSub] := c;
        inSub := inSub + 1;
        inSubBuf[inSub] := 0;
      }
    }

    /** A byte of the value of a variable */
    method ValueByte(c: byte) returns (key: int)
      requires Sound(Now()) && state == TsNewEnvironVal
      modifies `state, `inSub, inSubBuf
      ensures Sound(Now()) && Now() == Step(old(Now()), c).after && key == Step(old(Now()), c).key
    {
      key := NO_KEY;
      if c <= 3 || c == IAC {
        inSubBuf[inSub] := 0;
        state := if c == IAC then TsIac else TsNewEnvironVar;
        if IsUser(inSubBuf[..]) {
          key := KEY_RETURN;
        }
        inSub := 1;
        inSubBuf[inSub] := 0;
      } else if IsUser(inSubBuf[..]) {
        key := c as int;
      }
    }
  }

  // ---------------------------------------------------------------- the decoder as a function

  const YES: seq<byte> := [10, 91, 89, 101, 83, 93, 10]

  /** What is sent back on receipt of c */
  function Reply(s: State, c: byte): seq<byte> {
    match s
    case TsIac => if c == AYT then YES else []
    case TsWill =>
      if c == TELOPT_NAWS then []
      else if c == TELOPT_NEW_ENVIRON then [IAC, SB, TELOPT_NEW_ENVIRON, 1, IAC, SE]
      else [IAC, DONT, c]
    case TsDo => if c == TELOPT_SGA || c == TELOPT_ECHO then [] else [IAC, WONT, c]
    case _ => []
  }

  /** What becomes of a byte of data: zeroes, newlines and bytes above 0x7f are dropped, and DEL becomes BS. */
  function Filter(c: byte): int {
    if c == 0 || c == 10 || c > DEL then NO_KEY else if c == DEL then KEY_BS else c as int
  }

  datatype Outcome = Outcome(after: View, key: int)

  ghost function Step(v: View, c: byte): Outcome
    requires Sound(v)
  {
    match v.state
    case TsData => if c == IAC then Outcome(v.(state := TsIac), NO_KEY) else Outcome(v, Filter(c))
    case TsIac =>
      var sub := if c == SB then v.inSub + 1 else if c == SE && v.inSub > 0 then v.inSub - 1 else v.inSub;
      Outcome(v.(state := AfterIac(c), inSub := sub), if c == IAC then 0 else NO_KEY)
    case TsWill => Outcome(v.(state := TsData), NO_KEY)
    case TsDo => Outcome(v.(state := TsData), NO_KEY)
    case TsArg => Outcome(v.(state := if v.inSub != 0 then TsIac else TsData), NO_KEY)
    case TsNaws =>
      if v.inSub <= 4 then Outcome(v.(buf := v.buf[v.inSub := c], inSub := v.inSub + 1), NO_KEY)
      else Outcome(v.(width := Clamped(Word(v.buf[1], v.buf[2]), 1, TERM_WIDTH),
                      height := Clamped(Word(v.buf[3], v.buf[4]), 2, TERM_HEIGHT), inSub := 0, state := TsIac), NO_KEY)
    case TsNewEnviron =>
      Outcome(v.(state := if c == 0 then TsNewEnvironIs else TsNewEnviron, inSub := 1, buf := v.buf[1 := 0]), NO_KEY)
    case TsNewEnvironIs =>
      if c in {0, 2, 3} then Outcome(v.(state := TsNewEnvironVar, inSub := 1, buf := v.buf[1 := 0]), NO_KEY)
      else Outcome(v.(state := if c == IAC then TsIac else TsData), NO_KEY)
    case TsNewEnvironVar =>
      if c == 1 then Outcome(v.(state := TsNewEnvironVal, buf := v.buf[v.inSub := 0], inSub := v.inSub + 1), NO_KEY)
      else if c == IAC then Outcome(v.(state := TsIac), NO_KEY)
      else if v.inSub < MAX_SUB_BUF - 2
      then Outcome(v.(buf := v.buf[v.inSub := c][v.inSub + 1 := 0], inSub := v.inSub + 1), NO_KEY)
      else Outcome(v, NO_KEY)
    case TsNewEnvironVal =>
      if c <= 3 || c == IAC
      then var buf := v.buf[v.inSub := 0];
        Outcome(v.(state := if c == IAC then TsIac else TsNewEnvironVar, inSub := 1, buf := buf[1 := 0]),
                if IsUser(buf) then KEY_RETURN else NO_KEY)
      else Outcome(v, if IsUser(v.buf) then c as int else NO_KEY)
  }

  function AfterIac(c: byte): State {
    if c == SB then TsIac
    else if c in {IAC, AYT, NOP, SE} then TsData
    else if c == WILL then TsWill
    else if c == DO then TsDo
    else if c == TELOPT_NAWS then TsNaws
    else if c == TELOPT_NEW_ENVIRON then TsNewEnviron
    else TsArg
  }

  lemma StepSound(v: View, c: byte)
    requires Sound(v)
    ensures Sound(Step(v, c).after)
  {
  }

  // ---------------------------------------------------------------- streams of bytes

  datatype Trace = Trace(after: View, keys: seq<int>)

  ghost function Key(key: int): seq<int> {
    if key == NO_KEY then [] else [key]
  }

  /** The keys that a stream of bytes delivers, and the state it leaves */
  ghost function Run(v: View, cs: seq<byte>): (t: Trace)
    requires Sound(v)
    ensures Sound(t.after)
    decreases |cs|
  {
    if cs == [] then Trace(v, [])
    else
      StepSound(v, cs[0]);
      var first := Step(v, cs[0]);
      var rest := Run(first.after, cs[1..]);
      Trace(rest.after, Key(first.key) + rest.keys)
  }

  ghost function After(v: View, cs: seq<byte>): (w: View)
    requires Sound(v)
    ensures Sound(w)
  {
    Run(v, cs).after
  }

  ghost function Keys(v: View, cs: seq<byte>): seq<int>
    requires Sound(v)
  {
    Run(v, cs).keys
  }

  lemma {:induction false} RunConcat(v: View, a: seq<byte>, b: seq<byte>)
    requires Sound(v)
    ensures After(v, a + b) == After(After(v, a), b) && Keys(v, a + b) == Keys(v, a) + Keys(After(v, a), b)
    decreases |a|
  {
    if a == [] {
      assert a + b == b;
    } else {
      StepSound(v, a[0]);
      RunConcat(Step(v, a[0]).after, a[1..], b);
      assert (a + b)[1..] == a[1..] + b;
    }
  }

  /** One byte, then the others */
  lemma RunStep(v: View, c: byte, cs: seq<byte>)
    requires Sound(v)
    ensures Sound(Step(v, c).after)
    ensures After(v, [c] + cs) == After(Step(v, c).after, cs)
    ensures Keys(v, [c] + cs) == Key(Step(v, c).key) + Keys(Step(v, c).after, cs)
  {
    StepSound(v, c);
    assert ([c] + cs)[1..] == cs;
  }

  // ---------------------------------------------------------------- what a well-behaved client sends

  datatype Var = Var(kind: byte, name: seq<byte>, value: seq<byte>)

  /** Data; IAC sent as data; a request about an option; the commands that stand alone; any other command, with the byte
      behind it; the size of the window; and a list of environment variables with their values */
  datatype Token =
    | Data(c: byte)
    | Doubled
    | Request(verb: byte, option: byte)
    | Simple(command: byte)
    | Other(command: byte, next: byte)
    | WindowSize(w1: byte, w0: byte, h1: byte, h0: byte)
    | Environ(vars: seq<Var>)

  ghost predicate TextByte(c: byte) {
    c > 3 && c != IAC
  }

  /** Whatever stands before the byte that begins the value belongs to the name. */
  ghost predicate NameByte(c: byte) {
    c != 1 && c != IAC
  }

  /** The name of a variable, as a C string, is USER. */
  ghost predicate NamesUser(name: seq<byte>) {
    |name| >= 4 && name[..4] == USER && (|name| == 4 || name[4] == 0)
  }

  ghost predicate WellFormedVar(x: Var) {
    && x.kind in {0, 2, 3} && (forall i :: 0 <= i < |x.name| ==> NameByte(x.name[i]))
    && (forall i :: 0 <= i < |x.value| ==> TextByte(x.value[i]))
  }

  /** The commands are those of RFC 854: SE (240), NOP (241), AYT (246), SB (250), WILL (251), WONT (252), DO (253),
      DONT (254) and IAC (255). The decoder takes the options 31 and 39 for commands as well. */
  ghost predicate WellFormed(t: Token) {
    match t
    case Data(c) => c != 255
    case Doubled => true
    case Request(verb, _) => verb in {251, 252, 253, 254}
    case Simple(command) => command in {240, 241, 246}
    case Other(command, _) => command !in {240, 241, 246, 250, 251, 253, 255, 31, 39}
    case WindowSize(w1, w0, h1, h0) => 255 !in {w1, w0, h1, h0}
    case Environ(vars) => forall i :: 0 <= i < |vars| ==> WellFormedVar(vars[i])
  }

  ghost function EncodeVars(vars: seq<Var>): seq<byte> {
    if vars == [] then []
    else [vars[0].kind] + (vars[0].name + ([1] + (vars[0].value + EncodeVars(vars[1..]))))
  }

  /** The bytes of a token, as RFC 854, RFC 1073 and RFC 1572 have them */
  ghost function Encode(t: Token): seq<byte> {
    match t
    case Data(c) => [c]
    case Doubled => [255, 255]
    case Request(verb, option) => [255, verb, option]
    case Simple(command) => [255, command]
    case Other(command, next) => [255, command, next]
    case WindowSize(w1, w0, h1, h0) => [255, 250, 31, w1, w0, h1, h0, 255, 240]
    case Environ(vars) => [255, 250, 39, 0] + (EncodeVars(vars) + [255, 240])
  }

  ghost function AsKeys(s: seq<byte>): (r: seq<int>)
    ensures |r| == |s|
  {
    seq(|s|, i requires 0 <= i < |s| => s[i] as int)
  }

  /** A user name is typed in for the user, with a return behind it. */
  ghost function VarKeys(vars: seq<Var>): seq<int> {
    if vars == [] then []
    else (if NamesUser(vars[0].name) then AsKeys(vars[0].value) + [13] else []) + VarKeys(vars[1..])
  }

  /** A byte of data is a key as it is, from 1 to 0x7e and but for the newline; 0x7f is the backspace. */
  ghost function DataKeys(c: byte): seq<int> {
    if 1 <= c <= 0x7e && c != 10 then [c as int] else if c == 0x7f then [8] else []
  }

  ghost function TokenKeys(t: Token): seq<int> {
    match t
    case Data(c) => DataKeys(c)
    case Doubled => [0]
    case Environ(vars) => VarKeys(vars)
    case _ => []
  }

  /** Between two tokens */
  ghost predicate Ready(v: View) {
    Sound(v) && v.state == TsData && v.inSub == 0
  }

  lemma DataDelivered(v: View, c: byte)
    requires Ready(v) && c != IAC
    ensures After(v, [c]) == v && Keys(v, [c]) == DataKeys(c)
  {
    RunStep(v, c, []);
    assert [c] + [] == [c];
  }

  /** In particular the return key and all that can be seen come through, whatever else is going on. */
  lemma {:induction false} TextComesThrough(v: View, cs: seq<byte>)
    requires Ready(v) && forall i :: 0 <= i < |cs| ==> cs[i] == 13 || 32 <= cs[i] <= 126
    ensures After(v, cs) == v && Keys(v, cs) == AsKeys(cs)
    decreases |cs|
  {
    if cs != [] {
      assert cs == [cs[0]] + cs[1..];
      DataDelivered(v, cs[0]);
      RunConcat(v, [cs[0]], cs[1..]);
      TextComesThrough(v, cs[1..]);
      assert AsKeys(cs) == [cs[0] as int] + AsKeys(cs[1..]);
    }
  }

  lemma RequestDelivered(v: View, verb: byte, option: byte)
    requires Ready(v) && verb in {WILL, WONT, DO, DONT}
    ensures After(v, [IAC, verb, option]) == v && Keys(v, [IAC, verb, option]) == []
  {
    var v1 := Step(v, IAC).after;
    var v2 := Step(v1, verb).after;
    assert [IAC, verb, option] == [IAC] + ([verb] + ([option] + []));
    RunStep(v, IAC, [verb] + ([option] + []));
    RunStep(v1, verb, [option] + []);
    RunStep(v2, option, []);
  }

  /** IAC IAC delivers a zero. */
  lemma DoubledDelivered(v: View)
    requires Ready(v)
    ensures After(v, [IAC, IAC]) == v && Keys(v, [IAC, IAC]) == [0]
  {
    assert [IAC, IAC] == [IAC] + ([IAC] + []);
    RunStep(v, IAC, [IAC] + []);
    RunStep(Step(v, IAC).after, IAC, []);
  }

  /** A command that the decoder does not know takes the next byte with it. */
  lemma OtherDelivered(v: View, command: byte, next: byte)
    requires Ready(v) && command !in {IAC, AYT, NOP, SB, SE, WILL, DO, TELOPT_NAWS, TELOPT_NEW_ENVIRON}
    ensures After(v, [IAC, command, next]) == v && Keys(v, [IAC, command, next]) == []
  {
    var v1 := Step(v, IAC).after;
    var v2 := Step(v1, command).after;
    assert [IAC, command, next] == [IAC] + ([command] + ([next] + []));
    RunStep(v, IAC, [command] + ([next] + []));
    RunStep(v1, command, [next] + []);
    RunStep(v2, next, []);
  }

  lemma SimpleDelivered(v: View, command: byte)
    requires Ready(v) && command in {AYT, NOP, SE}
    ensures After(v, [IAC, command]) == v && Keys(v, [IAC, command]) == []
  {
    assert [IAC, command] == [IAC] + ([command] + []);
    RunStep(v, IAC, [command] + []);
    RunStep(Step(v, IAC).after, command, []);
  }

  ghost function Resized(v: View, w1: byte, w0: byte, h1: byte, h0: byte): View
    requires |v.buf| == MAX_SUB_BUF
  {
    v.(width := Clamped(Word(w1, w0), 1, TERM_WIDTH), height := Clamped(Word(h1, h0), 2, TERM_HEIGHT),
       buf := v.buf[1 := w1][2 := w0][3 := h1][4 := h0])
  }

  /** The four bytes of a window size, in network order, and the IAC behind them */
  lemma SizeBytes(v: View, w1: byte, w0: byte, h1: byte, h0: byte, cs: seq<byte>)
    requires Sound(v) && v.state == TsNaws && v.inSub == 1
    ensures var w := Resized(v, w1, w0, h1, h0).(state := TsIac, inSub := 0);
      var all := [w1] + ([w0] + ([h1] + ([h0] + ([IAC] + cs))));
      Sound(w) && After(v, all) == After(w, cs) && Keys(v, all) == Keys(w, cs)
  {
    var v1 := Step(v, w1).after;
    RunStep(v, w1, [w0] + ([h1] + ([h0] + ([IAC] + cs))));
    var v2 := Step(v1, w0).after;
    RunStep(v1, w0, [h1] + ([h0] + ([IAC] + cs)));
    var v3 := Step(v2, h1).after;
    RunStep(v2, h1, [h0] + ([IAC] + cs));
    var v4 := Step(v3, h0).after;
    RunStep(v3, h0, [IAC] + cs);
    RunStep(v4, IAC, cs);
  }

  /** IAC SB and the option that it is about */
  lemma Subnegotiation(v: View, option: byte, cs: seq<byte>)
    requires Ready(v) && option in {TELOPT_NAWS, TELOPT_NEW_ENVIRON}
    ensures var w := v.(inSub := 1, state := if option == TELOPT_NAWS then TsNaws else TsNewEnviron);
      var all := [IAC] + ([SB] + ([option] + cs));
      Sound(w) && After(v, all) == After(w, cs) && Keys(v, all) == Keys(w, cs)
  {
    var v1 := Step(v, IAC).after;
    RunStep(v, IAC, [SB] + ([option] + cs));
    var v2 := Step(v1, SB).after;
    RunStep(v1, SB, [option] + cs);
    RunStep(v2, option, cs);
  }

  lemma Ended(v: View)
    requires Sound(v) && v.state == TsIac && v.inSub <= 1
    ensures After(v, [SE]) == v.(state := TsData, inSub := 0) && Keys(v, [SE]) == []
  {
    RunStep(v, SE, []);
    assert [SE] + [] == [SE];
  }

  lemma WindowSizeDelivered(v: View, w1: byte, w0: byte, h1: byte, h0: byte)
    requires Ready(v)
    ensures var cs := Encode(WindowSize(w1, w0, h1, h0));
      After(v, cs) == Resized(v, w1, w0, h1, h0) && Keys(v, cs) == []
  {
    var size := [w1] + ([w0] + ([h1] + ([h0] + ([IAC] + [SE]))));
    assert Encode(WindowSize(w1, w0, h1, h0)) == [IAC] + ([SB] + ([TELOPT_NAWS] + size));
    Subnegotiation(v, TELOPT_NAWS, size);
    var w := v.(inSub := 1, state := TsNaws);
    SizeBytes(w, w1, w0, h1, h0, [SE]);
    Ended(Resized(w, w1, w0, h1, h0).(state := TsIac, inSub := 0));
  }

  // ---------------------------------------------------------------- environment variables

  /** The bytes `done` of a name have come in; only the first five are stored. */
  ghost predicate NameSoFar(v: View, done: seq<byte>) {
    && Sound(v) && v.state == TsNewEnvironVar && v.inSub == 1 + (if |done| < 5 then |done| else 5)
    && forall i :: 0 <= i < v.inSub - 1 ==> v.buf[1 + i] == done[i]
  }

  ghost predicate SameSize(v: View, w: View) {
    w.width == v.width && w.height == v.height
  }

  /** Is it the value of USER that comes in now? */
  ghost predicate ForUser(v: View, user: bool) {
    Sound(v) && v.state == TsNewEnvironVal && IsUser(v.buf) == user && IsUser(v.buf[v.inSub := 0]) == user
  }

  lemma {:induction false} NameDelivered(v: View, done: seq<byte>, name: seq<byte>, cs: seq<byte>) returns (w: View)
    requires NameSoFar(v, done) && forall i :: 0 <= i < |name| ==> NameByte(name[i])
    ensures ForUser(w, NamesUser(done + name)) && SameSize(v, w)
    ensures After(v, name + ([1] + cs)) == After(w, cs) && Keys(v, name + ([1] + cs)) == Keys(w, cs)
    decreases |name|
  {
    hide Run, Step, Sound;
    if name == [] {
      w := Step(v, 1).after;
      NameEnds(v, done);
      RunStep(v, 1, cs);
      assert name + ([1] + cs) == [1] + cs && done + name == done;
    } else {
      var v1 := Step(v, name[0]).after;
      NameGoesOn(v, done, name[0]);
      w := NameDelivered(v1, done + [name[0]], name[1..], cs);
      RunStep(v, name[0], name[1..] + ([1] + cs));
      assert name + ([1] + cs) == [name[0]] + (name[1..] + ([1] + cs));
      assert done + name == done + [name[0]] + name[1..];
    }
  }

  lemma NameGoesOn(v: View, done: seq<byte>, c: byte)
    requires NameSoFar(v, done) && NameByte(c)
    ensures NameSoFar(Step(v, c).after, done + [c]) && SameSize(v, Step(v, c).after) && Step(v, c).key == NO_KEY
  {
    StepSound(v, c);
  }

  lemma NameEnds(v: View, done: seq<byte>)
    requires NameSoFar(v, done)
    ensures ForUser(Step(v, 1).after, NamesUser(done)) && SameSize(v, Step(v, 1).after) && Step(v, 1).key == NO_KEY
  {
    StepSound(v, 1);
    var b := v.buf[v.inSub := 0];
    var b' := b[v.inSub + 1 := 0];
    if |done| == 4 {
      assert b[1..5] == done && b'[1..5] == done;
    } else if |done| < 4 {
      assert b[1..5][|done|] == b[1 + |done|] == 0 && b'[1..5][|done|] == 0;
    } else {
      assert b[1..5] == b'[1..5] == done[..4] && b[5] == b'[5] == done[4];
    }
  }

  lemma {:induction false} ValueDelivered(v: View, user: bool, value: seq<byte>, cs: seq<byte>)
    requires ForUser(v, user) && forall i :: 0 <= i < |value| ==> TextByte(value[i])
    ensures After(v, value + cs) == After(v, cs)
    ensures Keys(v, value + cs) == (if user then AsKeys(value) else []) + Keys(v, cs)
    decreases |value|
  {
    hide Run;
    if value == [] {
      assert value + cs == cs;
    } else {
      RunStep(v, value[0], value[1..] + cs);
      ValueDelivered(v, user, value[1..], cs);
      assert value + cs == [value[0]] + (value[1..] + cs);
      assert AsKeys(value) == [value[0] as int] + AsKeys(value[1..]);
    }
  }

  /** A return is due for a user name that is complete. */
  ghost function Pending(v: View): seq<int>
    requires Sound(v)
  {
    if v.state == TsNewEnvironVal && IsUser(v.buf[v.inSub := 0]) then [KEY_RETURN] else []
  }

  /** Before a variable, or the end of the list */
  ghost predicate BeforeVar(v: View) {
    Sound(v) && (v.state == TsNewEnvironVal || (v.state == TsNewEnvironIs && v.inSub == 1))
  }

  lemma {:induction false} VarsDelivered(v: View, vars: seq<Var>)
    requires BeforeVar(v) && forall i :: 0 <= i < |vars| ==> WellFormedVar(vars[i])
    ensures var cs := EncodeVars(vars) + [IAC, SE];
      Ready(After(v, cs)) && SameSize(v, After(v, cs)) && Keys(v, cs) == Pending(v) + VarKeys(vars)
    decreases |vars|
  {
    hide Run, After, Keys, Pending, BeforeVar, Ready, WellFormedVar, VarKeys, AsKeys, EncodeVars;
    if vars == [] {
      NoMoreVars(v);
      NoVars();
    } else {
      var rest := EncodeVars(vars[1..]) + [IAC, SE];
      OneVarFirst(vars);
      var w := VarDelivered(v, vars[0], rest);
      VarsDelivered(w, vars[1..]);
      FirstVarKeys(vars);
    }
  }

  lemma NoVars()
    ensures EncodeVars([]) + [IAC, SE] == [IAC, SE] && VarKeys([]) == []
  {
    assert EncodeVars([]) == [];
  }

  lemma {:induction false} FirstVarKeys(vars: seq<Var>)
    requires vars != []
    ensures var user := NamesUser(vars[0].name);
      VarKeys(vars)
      == (if user then AsKeys(vars[0].value) else []) + ((if user then [KEY_RETURN] else []) + VarKeys(vars[1..]))
  {
    hide AsKeys;
  }

  lemma NoMoreVars(v: View)
    requires BeforeVar(v)
    ensures Ready(After(v, [IAC, SE])) && SameSize(v, After(v, [IAC, SE])) && Keys(v, [IAC, SE]) == Pending(v)
  {
    RunStep(v, IAC, [SE]);
    Ended(Step(v, IAC).after);
    assert [IAC, SE] == [IAC] + [SE];
  }

  lemma {:induction false} OneVarFirst(vars: seq<Var>)
    requires vars != []
    ensures EncodeVars(vars) + [IAC, SE]
         == [vars[0].kind] + (vars[0].name + ([1] + (vars[0].value + (EncodeVars(vars[1..]) + [IAC, SE]))))
  {
  }

  /** A variable leaves the decoder in the middle of its value, with a return pending if it is a user name. */
  lemma VarDelivered(v: View, x: Var, rest: seq<byte>) returns (w: View)
    requires BeforeVar(v) && WellFormedVar(x)
    ensures BeforeVar(w) && SameSize(v, w) && Pending(w) == if NamesUser(x.name) then [KEY_RETURN] else []
    ensures var cs := [x.kind] + (x.name + ([1] + (x.value + rest)));
      && After(v, cs) == After(w, rest)
      && Keys(v, cs) == Pending(v) + ((if NamesUser(x.name) then AsKeys(x.value) else []) + Keys(w, rest))
  {
    RunStep(v, x.kind, x.name + ([1] + (x.value + rest)));
    var v1 := Step(v, x.kind).after;
    assert NameSoFar(v1, []);
    w := NameDelivered(v1, [], x.name, x.value + rest);
    assert [] + x.name == x.name;
    ValueDelivered(w, NamesUser(x.name), x.value, rest);
  }

  lemma {:induction false} EnvironDelivered(v: View, vars: seq<Var>)
    requires Ready(v) && forall i :: 0 <= i < |vars| ==> WellFormedVar(vars[i])
    ensures var cs := Encode(Environ(vars));
      Ready(After(v, cs)) && SameSize(v, After(v, cs)) && Keys(v, cs) == VarKeys(vars)
  {
    var tail := EncodeVars(vars) + [IAC, SE];
    assert Encode(Environ(vars)) == [IAC] + ([SB] + ([TELOPT_NEW_ENVIRON] + ([0] + tail)));
    Subnegotiation(v, TELOPT_NEW_ENVIRON, [0] + tail);
    var w := v.(inSub := 1, state := TsNewEnviron);
    RunStep(w, 0, tail);
    VarsDelivered(Step(w, 0).after, vars);
  }

  /** A list that does not begin with IS is waited for until it does, and what should be a variable and is none ends the
      list at once: what follows is data again. */
  lemma MalformedEnviron(v: View, waits: byte, c: byte)
    requires Ready(v) && waits != 0 && c !in {0, 2, 3, 255}
    ensures var cs := [255, 250, 39, waits];
      Keys(v, cs) == [] && SameSize(v, After(v, cs)) && After(v, cs).state == TsNewEnviron
    ensures var cs := [255, 250, 39, 0, c];
      Keys(v, cs) == [] && SameSize(v, After(v, cs)) && After(v, cs).state == TsData
  {
    var w := v.(inSub := 1, state := TsNewEnviron);
    assert [255, 250, 39, waits] == [IAC] + ([SB] + ([TELOPT_NEW_ENVIRON] + ([waits] + [])));
    Subnegotiation(v, TELOPT_NEW_ENVIRON, [waits] + []);
    RunStep(w, waits, []);
    assert [255, 250, 39, 0, c] == [IAC] + ([SB] + ([TELOPT_NEW_ENVIRON] + ([0] + ([c] + []))));
    Subnegotiation(v, TELOPT_NEW_ENVIRON, [0] + ([c] + []));
    RunStep(w, 0, [c] + []);
    RunStep(Step(w, 0).after, c, []);
  }

  lemma {:induction false} BareNameEnds(v: View, done: seq<byte>, name: seq<byte>)
    requires NameSoFar(v, done) && forall i :: 0 <= i < |name| ==> NameByte(name[i])
    ensures var w, n := After(v, name + [IAC, SE]), |done| + |name|;
      w.state == TsData && w.inSub == (if n < 5 then n else 5) && SameSize(v, w) && Keys(v, name + [IAC, SE]) == []
    decreases |name|
  {
    hide Run, Step, Sound;
    if name == [] {
      BareEnd(v);
      assert name + [IAC, SE] == [IAC, SE];
    } else {
      var v1 := Step(v, name[0]).after;
      NameGoesOn(v, done, name[0]);
      BareNameEnds(v1, done + [name[0]], name[1..]);
      RunStep(v, name[0], name[1..] + [IAC, SE]);
      assert name + [IAC, SE] == [name[0]] + (name[1..] + [IAC, SE]);
    }
  }

  lemma BareEnd(v: View)
    requires Sound(v) && v.state == TsNewEnvironVar
    ensures After(v, [IAC, SE]) == v.(state := TsData, inSub := v.inSub - 1) && Keys(v, [IAC, SE]) == []
  {
    var v1 := Step(v, IAC).after;
    assert [IAC, SE] == [IAC] + ([SE] + []);
    RunStep(v, IAC, [SE] + []);
    RunStep(v1, SE, []);
  }

  /** A list that is one variable without a value: nothing is delivered, but the index into the buffer is left where the
      name ended, so that the decoder is ready for the next token exactly if the name is empty. */
  lemma BareVariable(v: View, kind: byte, name: seq<byte>)
    requires Ready(v) && kind in {0, 2, 3} && forall i :: 0 <= i < |name| ==> NameByte(name[i])
    ensures var cs := [IAC, SB, TELOPT_NEW_ENVIRON, 0, kind] + name + [IAC, SE];
      && Keys(v, cs) == [] && After(v, cs).state == TsData && SameSize(v, After(v, cs))
      && After(v, cs).inSub == (if |name| < 5 then |name| else 5) && (Ready(After(v, cs)) <==> name == [])
  {
    hide Run;
    var tail := name + [IAC, SE];
    assert [IAC, SB, TELOPT_NEW_ENVIRON, 0, kind] + name + [IAC, SE]
        == [IAC] + ([SB] + ([TELOPT_NEW_ENVIRON] + ([0] + ([kind] + tail))));
    Subnegotiation(v, TELOPT_NEW_ENVIRON, [0] + ([kind] + tail));
    var w := v.(inSub := 1, state := TsNewEnviron);
    RunStep(w, 0, [kind] + tail);
    var w1 := Step(w, 0).after;
    RunStep(w1, kind, tail);
    var w2 := Step(w1, kind).after;
    assert NameSoFar(w2, []);
    BareNameEnds(w2, [], name);
  }

  /** After that a request that takes nothing with it otherwise leaves the decoder waiting for another command. */
  lemma BareUpsetsRequest(v: View, option: byte)
    requires Sound(v) && v.state == TsData && v.inSub > 0
    ensures After(v, [IAC, WONT, option]).state == TsIac
  {
    var v1 := Step(v, IAC).after;
    var v2 := Step(v1, WONT).after;
    assert [IAC, WONT, option] == [IAC] + ([WONT] + ([option] + []));
    RunStep(v, IAC, [WONT] + ([option] + []));
    RunStep(v1, WONT, [option] + []);
    RunStep(v2, option, []);
  }

  // ---------------------------------------------------------------- the whole stream

  /** A width of less than 2 is not sensible, nor is a height of less than 3, and 500 is the most there can be. */
  ghost function Sensible(size: int, least: int, standard: int): int {
    if size < least then standard else Min(size, 500)
  }

  /** The size that is set after a token */
  ghost function SizeAfter(t: Token, size: (int, int)): (int, int) {
    match t
    case WindowSize(w1, w0, h1, h0) =>
      (Sensible(256 * w1 as int + w0 as int, 2, 80), Sensible(256 * h1 as int + h0 as int, 3, 24))
    case _ => size
  }

  /** Every size that a screen can have is set as it is sent. */
  lemma WindowSizeSet(v: View, width: int, height: int, w1: byte, w0: byte, h1: byte, h0: byte)
    requires Ready(v) && 2 <= width <= 500 && 3 <= height <= 500
    requires (w1 as int, w0 as int) == (width / 256, width % 256)
    requires (h1 as int, h0 as int) == (height / 256, height % 256)
    requires IAC !in {w1, w0, h1, h0}
    ensures var w := After(v, [IAC, SB, TELOPT_NAWS, w1, w0, h1, h0, IAC, SE]); (w.width, w.height) == (width, height)
  {
    WindowSizeDelivered(v, w1, w0, h1, h0);
  }

  lemma TokenDelivered(v: View, t: Token)
    requires Ready(v) && WellFormed(t)
    ensures var w := After(v, Encode(t));
      Ready(w) && Keys(v, Encode(t)) == TokenKeys(t) && (w.width, w.height) == SizeAfter(t, (v.width, v.height))
  {
    match t {
      case Data(c) => DataDelivered(v, c);
      case Doubled => DoubledDelivered(v);
      case Request(verb, option) => RequestDelivered(v, verb, option);
      case Simple(command) => SimpleDelivered(v, command);
      case Other(command, next) => OtherDelivered(v, command, next);
      case WindowSize(w1, w0, h1, h0) => WindowSizeDelivered(v, w1, w0, h1, h0);
      case Environ(vars) => EnvironDelivered(v, vars);
    }
  }

  // ---------------------------------------------------------------- what is sent back

  /** What is sent back on receipt of a stream of bytes */
  ghost function Replies(v: View, cs: seq<byte>): seq<byte>
    requires Sound(v)
    decreases |cs|
  {
    if cs == [] then []
    else
      StepSound(v, cs[0]);
      Reply(v.state, cs[0]) + Replies(Step(v, cs[0]).after, cs[1..])
  }

  lemma RepliesStep(v: View, c: byte, cs: seq<byte>)
    requires Sound(v)
    ensures Sound(Step(v, c).after)
    ensures Replies(v, [c] + cs) == Reply(v.state, c) + Replies(Step(v, c).after, cs)
  {
    StepSound(v, c);
    assert ([c] + cs)[1..] == cs;
  }

  lemma {:induction false} RepliesConcat(v: View, a: seq<byte>, b: seq<byte>)
    requires Sound(v)
    ensures Replies(v, a + b) == Replies(v, a) + Replies(After(v, a), b)
    decreases |a|
  {
    hide Step, Reply, Sound, Run, After, Replies;
    if a == [] {
      RunNothing(v);
      assert a + b == b && [] + Replies(v, b) == Replies(v, b);
    } else {
      var w := Step(v, a[0]).after;
      RepliesStep(v, a[0], a[1..]);
      RepliesStep(v, a[0], a[1..] + b);
      RunStep(v, a[0], a[1..]);
      RepliesConcat(w, a[1..], b);
      assert a == [a[0]] + a[1..] && a + b == [a[0]] + (a[1..] + b);
    }
  }

  /** An offer of anything but the window size and the environment is refused, and so is a request for anything but an
      echo and no go-ahead; the environment is asked for, and who asks if anybody is there gets an answer. */
  ghost function TokenReply(t: Token): seq<byte> {
    match t
    case Request(verb, option) =>
      if verb == 251 && option == 39 then [255, 250, 39, 1, 255, 240]
      else if verb == 251 && option != 31 then [255, 254, option]
      else if verb == 253 && option != 1 && option != 3 then [255, 252, option]
      else []
    case Simple(command) => if command == 246 then [10, 91, 89, 101, 83, 93, 10] else []  // "\n[YeS]\n"
    case _ => []
  }

  /** Neither IAC nor a request has come in, nor do the bytes of a window size. */
  ghost predicate Quiet(v: View) {
    Sound(v) && v.state in {TsData, TsNewEnvironIs, TsNewEnvironVar, TsNewEnvironVal}
  }

  lemma {:induction false} QuietReplies(v: View, cs: seq<byte>)
    requires Quiet(v) && IAC !in cs
    ensures Quiet(After(v, cs)) && Replies(v, cs) == []
    decreases |cs|
  {
    if cs != [] {
      StepSound(v, cs[0]);
      QuietReplies(Step(v, cs[0]).after, cs[1..]);
    }
  }

  lemma {:induction false} VarsWithoutIac(vars: seq<Var>)
    requires forall i :: 0 <= i < |vars| ==> WellFormedVar(vars[i])
    ensures IAC !in EncodeVars(vars)
  {
    if vars != [] {
      var x := vars[0];
      VarsWithoutIac(vars[1..]);
      assert forall i :: 0 <= i < |x.name| ==> NameByte(x.name[i]);
      assert forall i :: 0 <= i < |x.value| ==> TextByte(x.value[i]);
      assert WellFormedVar(x) && IAC !in x.name && IAC !in x.value;
    }
  }

  /** IAC and what comes behind it */
  lemma CommandReplies(v: View, command: byte, cs: seq<byte>)
    requires Sound(v) && v.state in {TsData, TsNewEnvironIs, TsNewEnvironVar, TsNewEnvironVal}
    ensures var v2 := Step(Step(v, IAC).after, command).after;
      && Sound(Step(v, IAC).after) && Step(v, IAC).after.state == TsIac && Sound(v2)
      && Replies(v, [IAC] + ([command] + cs)) == Reply(TsIac, command) + Replies(v2, cs)
  {
    RepliesStep(v, IAC, [command] + cs);
    RepliesStep(Step(v, IAC).after, command, cs);
  }

  lemma TwoBytesReplied(v: View, command: byte)
    requires Quiet(v)
    ensures Replies(v, [IAC, command]) == Reply(TsIac, command)
  {
    CommandReplies(v, command, []);
    assert [IAC, command] == [IAC] + ([command] + []);
  }

  lemma ThreeBytesReplied(v: View, command: byte, c: byte)
    requires Ready(v)
    ensures Replies(v, [IAC, command, c]) == Reply(TsIac, command) + Reply(AfterIac(command), c)
  {
    var v2 := Step(Step(v, IAC).after, command).after;
    CommandReplies(v, command, [c] + []);
    RepliesStep(v2, c, []);
    assert [IAC, command, c] == [IAC] + ([command] + ([c] + []));
  }

  /** The bytes of a window size get no answer, whatever they are, nor does what ends them. */
  lemma {:induction false} SizeReplies(v: View, cs: seq<byte>)
    requires Sound(v) && v.state == TsNaws && |cs| <= 5 - v.inSub
    ensures var w := After(v, cs);
      && Replies(v, cs) == [] && Sound(w) && w.state == TsNaws && w.inSub == v.inSub + |cs|
    decreases |cs|
  {
    if cs != [] {
      StepSound(v, cs[0]);
      SizeReplies(Step(v, cs[0]).after, cs[1..]);
    }
  }

  lemma WindowSizeReplied(v: View, w1: byte, w0: byte, h1: byte, h0: byte)
    requires Ready(v)
    ensures Replies(v, Encode(WindowSize(w1, w0, h1, h0))) == []
  {
    hide Replies, Run, After;
    var size, rest := [w1, w0, h1, h0], [IAC] + ([SE] + []);
    assert Encode(WindowSize(w1, w0, h1, h0)) == [IAC] + ([SB] + ([TELOPT_NAWS] + (size + rest)));
    CommandReplies(v, SB, [TELOPT_NAWS] + (size + rest));
    var v0 := Step(Step(v, IAC).after, SB).after;
    RepliesStep(v0, TELOPT_NAWS, size + rest);
    var v1 := Step(v0, TELOPT_NAWS).after;
    SizeReplies(v1, size);
    RepliesConcat(v1, size, rest);
    SizeEnds(After(v1, size));
  }

  lemma SizeEnds(v: View)
    requires Sound(v) && v.state == TsNaws && v.inSub == 5
    ensures Replies(v, [IAC] + ([SE] + [])) == []
  {
    RepliesStep(v, IAC, [SE] + []);
    RepliesStep(Step(v, IAC).after, SE, []);
  }

  lemma EnvironReplied(v: View, vars: seq<Var>)
    requires Ready(v) && forall i :: 0 <= i < |vars| ==> WellFormedVar(vars[i])
    ensures Replies(v, Encode(Environ(vars))) == []
  {
    hide EncodeVars;
    var cs := EncodeVars(vars);
    assert Encode(Environ(vars)) == [IAC] + ([SB] + ([TELOPT_NEW_ENVIRON] + ([0] + (cs + [IAC, SE]))));
    CommandReplies(v, SB, [TELOPT_NEW_ENVIRON] + ([0] + (cs + [IAC, SE])));
    var v0 := Step(Step(v, IAC).after, SB).after;
    RepliesStep(v0, TELOPT_NEW_ENVIRON, [0] + (cs + [IAC, SE]));
    var v1 := Step(v0, TELOPT_NEW_ENVIRON).after;
    RepliesStep(v1, 0, cs + [IAC, SE]);
    var v2 := Step(v1, 0).after;
    VarsWithoutIac(vars);
    QuietReplies(v2, cs);
    RepliesConcat(v2, cs, [IAC, SE]);
    TwoBytesReplied(After(v2, cs), SE);
  }

  lemma TokenAnswered(v: View, t: Token)
    requires Ready(v) && WellFormed(t)
    ensures Replies(v, Encode(t)) == TokenReply(t)
  {
    hide Step, Replies;
    match t {
      case Data(c) => QuietReplies(v, [c]);
      case Doubled => TwoBytesReplied(v, IAC);
      case Request(verb, option) => ThreeBytesReplied(v, verb, option);
      case Simple(command) => TwoBytesReplied(v, command);
      case Other(command, next) => ThreeBytesReplied(v, command, next);
      case WindowSize(w1, w0, h1, h0) => WindowSizeReplied(v, w1, w0, h1, h0);
      case Environ(vars) => EnvironReplied(v, vars);
    }
  }

  ghost function EncodeAll(ts: seq<Token>): seq<byte> {
    if ts == [] then [] else Encode(ts[0]) + EncodeAll(ts[1..])
  }

  ghost function AllKeys(ts: seq<Token>): seq<int> {
    if ts == [] then [] else TokenKeys(ts[0]) + AllKeys(ts[1..])
  }

  ghost function AllReplies(ts: seq<Token>): seq<byte> {
    if ts == [] then [] else TokenReply(ts[0]) + AllReplies(ts[1..])
  }

  ghost function FinalSize(ts: seq<Token>, size: (int, int)): (int, int)
    decreases |ts|
  {
    if ts == [] then size else FinalSize(ts[1..], SizeAfter(ts[0], size))
  }

  /** Whatever a well-behaved client sends: the keys are exactly the filtered data and the user names, in this order,
      the size is the one last sent, as far as it is sensible, all requests are answered as they should be, and the
      decoder ends where it began. */
  lemma {:induction false} StreamDelivered(v: View, ts: seq<Token>)
    requires Ready(v) && forall i :: 0 <= i < |ts| ==> WellFormed(ts[i])
    ensures var w := After(v, EncodeAll(ts));
      Ready(w) && Keys(v, EncodeAll(ts)) == AllKeys(ts) && (w.width, w.height) == FinalSize(ts, (v.width, v.height))
    ensures Replies(v, EncodeAll(ts)) == AllReplies(ts)
    decreases |ts|
  {
    hide Run, After, Keys, Replies, Encode, TokenKeys, TokenReply, SizeAfter, WellFormed;
    if ts == [] {
      RunNothing(v);
    } else {
      TokenDelivered(v, ts[0]);
      TokenAnswered(v, ts[0]);
      RunConcat(v, Encode(ts[0]), EncodeAll(ts[1..]));
      RepliesConcat(v, Encode(ts[0]), EncodeAll(ts[1..]));
      StreamDelivered(After(v, Encode(ts[0])), ts[1..]);
    }
  }

  lemma RunNothing(v: View)
    requires Sound(v)
    ensures After(v, []) == v && Keys(v, []) == [] && Replies(v, []) == []
  {
  }

  /** The bytes that arrive go to the decoder one by one, as ConnUser_process has it. */
  method Feed(t: Decoder, cs: seq<byte>) returns (keys: seq<int>, sent: seq<byte>)
    requires Sound(t.Now())
    modifies t, t.inSubBuf
    ensures Sound(t.Now()) && t.Now() == After(old(t.Now()), cs)
    ensures keys == Keys(old(t.Now()), cs) && sent == Replies(old(t.Now()), cs)
  {
    hide Step, Run, After, Keys, Reply, Replies;
    ghost var v := t.Now();
    keys, sent := [], [];
    var i := 0;
    assert cs[0..] == cs;
    while i < |cs|
      invariant i <= |cs| && Sound(t.Now()) && After(t.Now(), cs[i..]) == After(v, cs)
      invariant keys + Keys(t.Now(), cs[i..]) == Keys(v, cs) && sent + Replies(t.Now(), cs[i..]) == Replies(v, cs)
    {
      assert cs[i..] == [cs[i]] + cs[i + 1..];
      RunStep(t.Now(), cs[i], cs[i + 1..]);
      RepliesStep(t.Now(), cs[i], cs[i + 1..]);
      var key, reply, _ := t.Negotiate(cs[i]);
      keys := if key == NO_KEY then keys else keys + [key];
      sent := sent + reply;
      i := i + 1;
    }
    assert cs[i..] == [];
    RunNothing(t.Now());
  }

  /** So this is what a user gets to see of a well-formed stream. */
  method Receive(t: Decoder, cs: seq<byte>, ghost ts: seq<Token>) returns (keys: seq<int>, sent: seq<byte>)
    requires Ready(t.Now()) && cs == EncodeAll(ts) && forall i :: 0 <= i < |ts| ==> WellFormed(ts[i])
    modifies t, t.inSubBuf
    ensures Ready(t.Now()) && keys == AllKeys(ts) && sent == AllReplies(ts)
    ensures (t.termWidth, t.termHeight) == FinalSize(ts, (old(t.termWidth), old(t.termHeight)))
  {
    hide Run, Step, EncodeAll, WellFormed;
    StreamDelivered(t.Now(), ts);
    keys, sent := Feed(t, cs);
  }
}
