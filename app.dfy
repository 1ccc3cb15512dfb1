/**
 * The application state of main.c, the global `model`: the bus
 * descriptor, the LED configuration (three colour rows, and the hashes of
 * the mode, speed and colour words), the fan configuration (bounds, the
 * speed last sent, the single-step speed, the hash of the mode word), the
 * raw register write given with `--i2c`, and the CPU temperature.
 * Loading reads the configuration texts; `model_init` sends the LED and
 * fan set-up to the HAT, and `model_exec` adjusts the fan to the
 * temperature.
 */
module App {
  import opened Wrappers
  import opened CStrings
  import opened Hash
  import opened Keywords
  import opened Strtol
  import opened U8Parse
  import opened Rgb
  import opened FanControl
  import opened Dispatch

  /** MODEL_I2C_ADDR: the bus address of the raw `--i2c` write. */
  const MODEL_I2C_ADDR: Byte := 0x0D

  /** How `model_init` ends: the program exits on a bad descriptor or after the raw write, and runs on otherwise. */
  datatype Outcome = Failed | Wrote | Ready

  /** The writes of `rgb_set` for LED `num` and its colour row. */
  function SetWrite(fd: int, addr: Byte, num: Byte, row: seq<Byte>): seq<Write>
    requires |row| == 3
  {
    [Write(fd, addr, REG_NUM, LedByte(num)), Write(fd, addr, REG_R, row[0]),
     Write(fd, addr, REG_G, row[1]), Write(fd, addr, REG_B, row[2])]
  }

  /** Three-byte colour rows, at most 255 of them. */
  predicate RowsOk(rows: seq<seq<Byte>>) {
    |rows| < 256 && forall i :: 0 <= i < |rows| ==> |rows[i]| == 3
  }

  /** The writes of the `rgb_set` loop of `model_init` over `rows`, LED 0 first. */
  function SetWrites(fd: int, addr: Byte, rows: seq<seq<Byte>>): seq<Write>
    requires RowsOk(rows)
  {
    if rows == [] then []
    else SetWrites(fd, addr, rows[..|rows| - 1]) + SetWrite(fd, addr, |rows| - 1, rows[|rows| - 1])
  }

  /** The LED commands of `model_init`: off for `disable`, else effect (when known), speed and colour. */
  function LedWrites(fd: int, addr: Byte, mode: U32, speed: U32, color: U32): seq<Write>
  {
    if mode == BKDR_DISABLE then [Write(fd, addr, REG_OFF, 0)]
    else EffectWrites(fd, addr, mode)
         + [Write(fd, addr, REG_SPEED, LedSpeedOf(speed)), Write(fd, addr, REG_COLOR, ColorOf(color))]
  }

  /** The effect write of `model_init`: none when the mode word names no effect. */
  function EffectWrites(fd: int, addr: Byte, mode: U32): seq<Write>
  {
    match EffectOf(mode)
    case Some(e) => [Write(fd, addr, REG_EFFECT, e)]
    case None => []
  }

  /** Everything `model_init` sends to the HAT when it runs on. */
  function InitWrites(fd: int, addr: Byte, rows: seq<seq<Byte>>, mode: U32, speed: U32, color: U32,
                      fanMode: U32, fanSpeed: Byte): seq<Write>
    requires RowsOk(rows)
  {
    SetWrites(fd, addr, rows) + LedWrites(fd, addr, mode, speed, color)
    + (if fanMode == BKDR_DIRECT then [Write(fd, addr, REG_FAN, FanByte(fanSpeed))] else [])
  }

  /** The data bytes written to register `reg`, in order: the trace as one register sees it. */
  function Regs(ws: seq<Write>, reg: Byte): (r: seq<Byte>)
    ensures |r| <= |ws|
  {
    if ws == [] then [] else Regs(ws[..|ws| - 1], reg) + Pick(ws[|ws| - 1], reg)
  }

  /** The data of `w` when it goes to register `reg`. */
  function Pick(w: Write, reg: Byte): seq<Byte> {
    if w.reg == reg then [w.data] else []
  }

  /** Each register's view of two traces one after the other is the two views one after the other. */
  lemma {:induction false} RegsAppend(a: seq<Write>, b: seq<Write>, reg: Byte)
    ensures Regs(a + b, reg) == Regs(a, reg) + Regs(b, reg)
    decreases |b|
  {
    if b == [] {
      assert a + b == a;
    } else {
      var b0 := b[..|b| - 1];
      assert (a + b)[..|a + b| - 1] == a + b0;
      assert (a + b)[|a + b| - 1] == b[|b| - 1];
      RegsAppend(a, b0, reg);
    }
  }

  /** A register's view of a single write. */
  lemma RegsOne(w: Write, reg: Byte)
    ensures Regs([w], reg) == Pick(w, reg)
  {
    assert [w][..0] == [];
  }

  /** A register's view of two writes. */
  lemma RegsTwo(w0: Write, w1: Write, reg: Byte)
    ensures Regs([w0, w1], reg) == Pick(w0, reg) + Pick(w1, reg)
  {
    assert [w0, w1] == [w0] + [w1];
    RegsAppend([w0], [w1], reg);
    RegsOne(w0, reg);
    RegsOne(w1, reg);
  }

  /** The column `c` of the colour rows. */
  function Column(rows: seq<seq<Byte>>, c: nat): (r: seq<Byte>)
    requires RowsOk(rows) && c < 3
    ensures |r| == |rows|
  {
    if rows == [] then []
    else
      assert RowsOk(rows[..|rows| - 1]);
      Column(rows[..|rows| - 1], c) + [rows[|rows| - 1][c]]
  }

  /** The LED numbers 0, 1, …, n - 1. */
  function Numbers(n: nat): (r: seq<Byte>)
    requires n < 256
    ensures |r| == n
  {
    if n == 0 then [] else Numbers(n - 1) + [n - 1]
  }

  /** What register `reg` receives from the `rgb_set` loop over `rows` (see SetRegs). */
  function SetRegsOf(rows: seq<seq<Byte>>, reg: Byte): seq<Byte>
    requires RowsOk(rows) && |rows| <= 3
  {
    if reg == REG_NUM then Numbers(|rows|)
    else if reg == REG_R then Column(rows, 0)
    else if reg == REG_G then Column(rows, 1)
    else if reg == REG_B then Column(rows, 2)
    else []
  }

  /** The four writes of one `rgb_set` as each register sees them. */
  lemma SetWriteRegs(fd: int, addr: Byte, num: Byte, row: seq<Byte>, reg: Byte)
    requires |row| == 3
    ensures Regs(SetWrite(fd, addr, num, row), reg)
            == Pick(Write(fd, addr, REG_NUM, LedByte(num)), reg) + Pick(Write(fd, addr, REG_R, row[0]), reg)
               + Pick(Write(fd, addr, REG_G, row[1]), reg) + Pick(Write(fd, addr, REG_B, row[2]), reg)
  {
    var w0, w1 := Write(fd, addr, REG_NUM, LedByte(num)), Write(fd, addr, REG_R, row[0]);
    var w2, w3 := Write(fd, addr, REG_G, row[1]), Write(fd, addr, REG_B, row[2]);
    assert SetWrite(fd, addr, num, row) == [w0, w1] + [w2, w3];
    RegsAppend([w0, w1], [w2, w3], reg);
    RegsTwo(w0, w1, reg);
    RegsTwo(w2, w3, reg);
  }

  /**
   * The `rgb_set` loop as each register sees it: the LED numbers 0, 1, …
   * in order, each colour register the matching column of the rows, and
   * nothing at all on the command registers.
   */
  lemma {:induction false} SetRegs(fd: int, addr: Byte, rows: seq<seq<Byte>>, reg: Byte)
    requires RowsOk(rows) && |rows| <= 3
    ensures Regs(SetWrites(fd, addr, rows), reg) == SetRegsOf(rows, reg)
  {
    if rows != [] {
      var init := rows[..|rows| - 1];
      var last := rows[|rows| - 1];
      assert RowsOk(init);
      SetRegs(fd, addr, init, reg);
      var sw := SetWrite(fd, addr, |rows| - 1, last);
      assert SetWrites(fd, addr, rows) == SetWrites(fd, addr, init) + sw;
      RegsAppend(SetWrites(fd, addr, init), sw, reg);
      SetWriteRegs(fd, addr, |rows| - 1, last, reg);
      assert Regs(SetWrites(fd, addr, rows), reg) == SetRegsOf(init, reg) + Regs(sw, reg);
      if reg == REG_NUM {
        assert Regs(sw, reg) == [|rows| - 1];
      } else if reg == REG_R {
        assert Regs(sw, reg) == [last[0]];
      } else if reg == REG_G {
        assert Regs(sw, reg) == [last[1]];
      } else if reg == REG_B {
        assert Regs(sw, reg) == [last[2]];
      } else {
        assert Regs(sw, reg) == [];
      }
    }
  }

  /** The LED command bytes register `reg` receives (see LedWritesRegs). */
  function LedRegs(mode: U32, speed: U32, color: U32, reg: Byte): seq<Byte>
  {
    if mode == BKDR_DISABLE then (if reg == REG_OFF then [0] else [])
    else if reg == REG_EFFECT then (if EffectOf(mode).Some? then [EffectOf(mode).value] else [])
    else if reg == REG_SPEED then [LedSpeedOf(speed)]
    else if reg == REG_COLOR then [ColorOf(color)]
    else []
  }

  /** The LED commands of `model_init` as each register sees them. */
  lemma LedWritesRegs(fd: int, addr: Byte, mode: U32, speed: U32, color: U32, reg: Byte)
    ensures Regs(LedWrites(fd, addr, mode, speed, color), reg) == LedRegs(mode, speed, color, reg)
  {
    if mode == BKDR_DISABLE {
      RegsOne(Write(fd, addr, REG_OFF, 0), reg);
    } else {
      var e := EffectWrites(fd, addr, mode);
      var sc := [Write(fd, addr, REG_SPEED, LedSpeedOf(speed)), Write(fd, addr, REG_COLOR, ColorOf(color))];
      RegsAppend(e, sc, reg);
      RegsTwo(sc[0], sc[1], reg);
      if EffectOf(mode).Some? {
        RegsOne(e[0], reg);
      }
    }
  }

  /** Everything `model_init` sends, one register at a time: the LED rows, then the LED commands, then the fan. */
  lemma InitRegsAt(fd: int, addr: Byte, rows: seq<seq<Byte>>, mode: U32, speed: U32, color: U32, fanMode: U32, fanSpeed: Byte, reg: Byte)
    requires RowsOk(rows) && |rows| == 3
    ensures Regs(InitWrites(fd, addr, rows, mode, speed, color, fanMode, fanSpeed), reg)
            == SetRegsOf(rows, reg) + LedRegs(mode, speed, color, reg)
               + (if fanMode == BKDR_DIRECT && reg == REG_FAN then [FanByte(fanSpeed)] else [])
  {
    var s := SetWrites(fd, addr, rows);
    var l := LedWrites(fd, addr, mode, speed, color);
    var f: seq<Write> := if fanMode == BKDR_DIRECT then [Write(fd, addr, REG_FAN, FanByte(fanSpeed))] else [];
    RegsAppend(s + l, f, reg);
    RegsAppend(s, l, reg);
    SetRegs(fd, addr, rows, reg);
    LedWritesRegs(fd, addr, mode, speed, color, reg);
    if fanMode == BKDR_DIRECT {
      RegsOne(f[0], reg);
    }
  }

  lemma NumbersThree()
    ensures Numbers(3) == [0, 1, 2]
  {
    assert Numbers(1) == [0];
    assert Numbers(2) == [0, 1];
  }

  /** What `model_init` sends to the LED number register: 0, 1 and 2, in that order. */
  lemma InitNumberRegs(fd: int, addr: Byte, rows: seq<seq<Byte>>, mode: U32, speed: U32, color: U32, fanMode: U32, fanSpeed: Byte)
    requires RowsOk(rows) && |rows| == 3
    ensures Regs(InitWrites(fd, addr, rows, mode, speed, color, fanMode, fanSpeed), REG_NUM) == [0, 1, 2]
  {
    InitRegsAt(fd, addr, rows, mode, speed, color, fanMode, fanSpeed, REG_NUM);
    NumbersThree();
    assert SetRegsOf(rows, REG_NUM) == [0, 1, 2];
    assert LedRegs(mode, speed, color, REG_NUM) == [];
  }

  /** What `model_init` sends to the red, green and blue registers: the matching column of the rows, LED 0 first. */
  lemma InitColumnRegs(fd: int, addr: Byte, rows: seq<seq<Byte>>, mode: U32, speed: U32, color: U32, fanMode: U32, fanSpeed: Byte)
    requires RowsOk(rows) && |rows| == 3
    ensures var ws := InitWrites(fd, addr, rows, mode, speed, color, fanMode, fanSpeed);
            Regs(ws, REG_R) == Column(rows, 0) && Regs(ws, REG_G) == Column(rows, 1) && Regs(ws, REG_B) == Column(rows, 2)
  {
    InitRegsAt(fd, addr, rows, mode, speed, color, fanMode, fanSpeed, REG_R);
    InitRegsAt(fd, addr, rows, mode, speed, color, fanMode, fanSpeed, REG_G);
    InitRegsAt(fd, addr, rows, mode, speed, color, fanMode, fanSpeed, REG_B);
  }

  /**
   * What `model_init` sends to the LED command registers: with mode
   * `disable` a single 0 to the off register and nothing else; otherwise
   * the effect number when the mode word names one, then the speed and the
   * colour number, and nothing to the off register.
   */
  lemma InitLedRegs(fd: int, addr: Byte, rows: seq<seq<Byte>>, mode: U32, speed: U32, color: U32, fanMode: U32, fanSpeed: Byte)
    requires RowsOk(rows) && |rows| == 3
    ensures var ws := InitWrites(fd, addr, rows, mode, speed, color, fanMode, fanSpeed);
            Regs(ws, REG_OFF) == (if mode == BKDR_DISABLE then [0] else [])
            && Regs(ws, REG_EFFECT) == (if mode != BKDR_DISABLE && EffectOf(mode).Some? then [EffectOf(mode).value] else [])
            && Regs(ws, REG_SPEED) == (if mode == BKDR_DISABLE then [] else [LedSpeedOf(speed)])
            && Regs(ws, REG_COLOR) == (if mode == BKDR_DISABLE then [] else [ColorOf(color)])
  {
    InitRegsAt(fd, addr, rows, mode, speed, color, fanMode, fanSpeed, REG_EFFECT);
    assert SetRegsOf(rows, REG_EFFECT) == [];
    InitRegsAt(fd, addr, rows, mode, speed, color, fanMode, fanSpeed, REG_SPEED);
    InitRegsAt(fd, addr, rows, mode, speed, color, fanMode, fanSpeed, REG_COLOR);
    InitRegsAt(fd, addr, rows, mode, speed, color, fanMode, fanSpeed, REG_OFF);
  }

  /** What `model_init` sends to the fan register: the fan byte of the configured speed, in direct mode only. */
  lemma InitFanRegs(fd: int, addr: Byte, rows: seq<seq<Byte>>, mode: U32, speed: U32, color: U32, fanMode: U32, fanSpeed: Byte)
    requires RowsOk(rows) && |rows| == 3
    ensures var ws := InitWrites(fd, addr, rows, mode, speed, color, fanMode, fanSpeed);
            Regs(ws, REG_FAN) == (if fanMode == BKDR_DIRECT then [FanByte(fanSpeed)] else [])
  {
    InitRegsAt(fd, addr, rows, mode, speed, color, fanMode, fanSpeed, REG_FAN);
  }

  /** The program state `model`. */
  class Model {
    /** `dev.i2c`: the bus descriptor. */
    var fd: int
    /** `cpu.temp`: the CPU temperature last read, in millidegrees Celsius. */
    var temp: nat
    /** `led.rgb`: three rows of red, green and blue. */
    const rgb: seq<array<Byte>>
    /** `led.mode`, `led.speed`, `led.color`: hashes of the configured words. */
    var ledMode: U32
    var ledSpeed: U32
    var ledColor: U32
    /** `fan.bound.lower`, `fan.bound.upper`: the temperature band, in degrees. */
    var fanLower: Byte
    var fanUpper: Byte
    /** `fan.current_speed`: the speed last sent (or read back from the HAT). */
    var fanCurrent: Byte
    /** `fan.speed`: the speed of single-step and direct mode. */
    var fanSpeed: Byte
    /** `fan.mode`: hash of the configured fan mode word. */
    var fanMode: U32
    /** `i2c`: register and data of the raw write requested with `--i2c`. */
    const i2c: array<Byte>
    /** `write`: whether to do the raw write instead of running. */
    var write: bool

    /**
     * The shape of the state, and the invariant loading the fan keeps:
     * the bounds are strictly ordered and at most 65, the speed at most 9.
     */
    ghost predicate Valid()
      reads this`fanLower, this`fanUpper, this`fanSpeed
    {
      Shape() && fanLower < fanUpper <= BOUND_MAX && fanSpeed <= SPEED_MAX
    }

    /** Three distinct colour rows of three bytes, and an eight-byte raw-write buffer apart from them. */
    ghost predicate Shape() {
      |rgb| == 3 && rgb[0].Length == 3 && rgb[1].Length == 3 && rgb[2].Length == 3
      && rgb[0] != rgb[1] && rgb[0] != rgb[2] && rgb[1] != rgb[2]
      && i2c.Length == 8 && i2c != rgb[0] && i2c != rgb[1] && i2c != rgb[2]
    }

    /** The colour rows as values. */
    ghost function Rows(): (r: seq<seq<Byte>>)
      requires Valid()
      reads this`fanLower, this`fanUpper, this`fanSpeed, rgb[0], rgb[1], rgb[2]
      ensures RowsOk(r) && |r| == 3
    {
      [rgb[0][..], rgb[1][..], rgb[2][..]]
    }

    /** The initial `model`: dark LEDs, mode `disable`, speed `middle`, the `graded` word as colour; fan band 45..60, single mode at full speed. */
    constructor ()
      ensures Valid() && fresh(rgb[0]) && fresh(rgb[1]) && fresh(rgb[2]) && fresh(i2c)
      ensures fd == 0 && temp == 0 && Rows() == [[0, 0, 0], [0, 0, 0], [0, 0, 0]]
      ensures ledMode == BKDR_DISABLE && ledSpeed == BKDR_MIDDLE && ledColor == BKDR_GRADED
      ensures fanLower == 45 && fanUpper == 60 && fanCurrent == 0 && fanSpeed == SPEED_MAX && fanMode == BKDR_SINGLE
      ensures i2c[..] == [0, 0, 0, 0, 0, 0, 0, 0] && !write
    {
      fd := 0;
      temp := 0;
      var r0 := new Byte[3](_ => 0);
      var r1 := new Byte[3](_ => 0);
      var r2 := new Byte[3](_ => 0);
      rgb := [r0, r1, r2];
      ledMode := BKDR_DISABLE;
      ledSpeed := BKDR_MIDDLE;
      ledColor := BKDR_GRADED;
      fanLower := 45;
      fanUpper := 60;
      fanCurrent := 0;
      fanSpeed := SPEED_MAX;
      fanMode := BKDR_SINGLE;
      i2c := new Byte[8](_ => 0);
      write := false;
      assert r0[..] == [0, 0, 0] && r1[..] == [0, 0, 0] && r2[..] == [0, 0, 0];
    }

    /** `model_load_device`: the descriptor is what opening the configured bus device returned. */
    method LoadDevice(handle: int)
      modifies this`fd
      ensures fd == handle
    {
      fd := handle;
    }

    /**
     * `model_load_led`: each colour row takes the numbers of its text as
     * `u8_parse(row, 3, text)` stores them, and the mode, speed and colour
     * become the hashes of their words.
     */
    method LoadLed(rgb1: seq<Byte>, rgb2: seq<Byte>, rgb3: seq<Byte>, mode: seq<Byte>, speed: seq<Byte>, color: seq<Byte>)
      requires Valid()
      modifies rgb[0], rgb[1], rgb[2], this`ledMode, this`ledSpeed, this`ledColor
      ensures Valid()
      ensures rgb[0][..] == Parsed(rgb1, 0, 3) + old(rgb[0][..])[|Parsed(rgb1, 0, 3)|..]
      ensures rgb[1][..] == Parsed(rgb2, 0, 3) + old(rgb[1][..])[|Parsed(rgb2, 0, 3)|..]
      ensures rgb[2][..] == Parsed(rgb3, 0, 3) + old(rgb[2][..])[|Parsed(rgb3, 0, 3)|..]
      ensures ledMode == Fold(CStr(mode)) && ledSpeed == Fold(CStr(speed)) && ledColor == Fold(CStr(color))
    {
      LoadRow(0, rgb1);
      LoadRow(1, rgb2);
      LoadRow(2, rgb3);
      LoadWords(mode, speed, color);
    }

    /** The three `bkdr` calls of `model_load_led`. */
    method LoadWords(mode: seq<Byte>, speed: seq<Byte>, color: seq<Byte>)
      modifies this`ledMode, this`ledSpeed, this`ledColor
      ensures ledMode == Fold(CStr(mode)) && ledSpeed == Fold(CStr(speed)) && ledColor == Fold(CStr(color))
    {
      ledMode := Bkdr(Some(mode));
      ledSpeed := Bkdr(Some(speed));
      ledColor := Bkdr(Some(color));
    }

    /** One `u8_parse(model.rgb[k], 3, text)` of `model_load_led`. */
    method LoadRow(k: nat, text: seq<Byte>)
      requires Valid() && k < 3
      modifies rgb[k]
      ensures rgb[k][..] == Parsed(text, 0, 3) + old(rgb[k][..])[|Parsed(text, 0, 3)|..]
    {
      var n := Parse(rgb[k], 3, Some(text));
    }

    /**
     * `model_load_fan`: the mode becomes the hash of its word, the bounds
     * are read from the bound text and put in order (FanControl.Bounds),
     * and the single-step speed is the configured number capped at 9. The
     * bounds stay strictly ordered and at most 65.
     */
    method LoadFan(mode: seq<Byte>, bound: seq<Byte>, speed: int)
      requires Valid()
      modifies this`fanMode, this`fanLower, this`fanUpper, this`fanSpeed
      ensures Valid()
      ensures fanMode == Fold(CStr(mode))
      ensures (fanLower, fanUpper) == Bounds(old(fanLower), old(fanUpper), bound)
      ensures fanSpeed == SpeedCap(speed)
    {
      var hash := Bkdr(Some(mode));
      ReadBounds(bound);
      CapSpeed(speed);
      assert Valid();
      fanMode := hash;
    }

    /** The speed part of `model_load_fan`: the number kept as a byte, then capped at 9. */
    method CapSpeed(speed: int)
      modifies this`fanSpeed
      ensures fanSpeed == SpeedCap(speed)
    {
      fanSpeed := U8(speed);
      if fanSpeed > SPEED_MAX {
        fanSpeed := SPEED_MAX;
      }
    }

    /** The bound part of `model_load_fan`: two numbers read and clamped, then put in order. */
    method ReadBounds(bound: seq<Byte>)
      requires fanLower < fanUpper <= BOUND_MAX
      modifies this`fanLower, this`fanUpper
      ensures (fanLower, fanUpper) == Bounds(old(fanLower), old(fanUpper), bound)
      ensures fanLower < fanUpper <= BOUND_MAX
    {
      var first, second := ReadNumbers(bound);
      if first > 0 {
        fanLower := if first < BOUND_MAX then first else BOUND_MAX;
      }
      if second > 0 {
        fanUpper := if second < BOUND_MAX then second else BOUND_MAX;
      }
      Order();
    }

    /** The two `strtol` calls of the bound part, with the skip between them, each result kept as a byte. */
    method ReadNumbers(bound: seq<Byte>) returns (first: Byte, second: Byte)
      ensures (first, second) == BoundNumbers(bound)
    {
      var c := StrToL(bound);
      first := U8(c.value);
      assert bound[0..] == bound;
      assert After(bound, 0) == c.used;
      var p := Skip(bound, c.used);
      c := StrToL(bound[p..]);
      second := U8(c.value);
      assert p == SkipNonDigits(bound, After(bound, 0));
    }

    /** The ordering step of `model_load_fan`: equal bounds lower the lower one, reversed bounds are swapped. */
    method Order()
      modifies this`fanLower, this`fanUpper
      ensures (fanLower, fanUpper) == Normalise(old(fanLower), old(fanUpper))
    {
      if fanLower == fanUpper {
        fanLower := U8(fanUpper - 1);
      } else if fanLower > fanUpper {
        var b := fanLower;
        fanLower := fanUpper;
        fanUpper := b;
      }
    }

    /**
     * The `--i2c` option: up to eight numbers of the argument are stored
     * as `u8_parse(i2c, 8, arg)` stores them, and the raw write is
     * switched on (or off again, when given twice).
     */
    method OptionI2c(arg: seq<Byte>)
      requires Valid()
      modifies i2c, this`write
      ensures Valid()
      ensures write == !old(write)
      ensures i2c[..] == Parsed(arg, 0, 8) + old(i2c[..])[|Parsed(arg, 0, 8)|..]
    {
      var n := Parse(i2c, 8, Some(arg));
      write := !write;
    }

    /**
     * `model_init`: a negative descriptor fails; with `--i2c` the one raw
     * write of `i2c[1]` to register `i2c[0]` is sent; otherwise the LED
     * rows, the LED commands and, in direct mode, the fan speed are sent
     * (InitWrites, and InitNumberRegs, InitColumnRegs, InitLedRegs and InitFanRegs register by register), and the current fan speed is what the HAT
     * reports (`reading`).
     */
    method Init(hat: Hat, reading: Byte) returns (outcome: Outcome)
      requires Valid()
      modifies hat`writes, this`fanCurrent
      ensures Valid()
      ensures fd < 0 ==> outcome == Failed && hat.writes == old(hat.writes) && fanCurrent == old(fanCurrent)
      ensures fd >= 0 && write ==> outcome == Wrote && fanCurrent == old(fanCurrent)
                                   && hat.writes == old(hat.writes) + [Write(fd, MODEL_I2C_ADDR, i2c[0], i2c[1])]
      ensures fd >= 0 && !write ==> outcome == Ready && fanCurrent == reading
                                    && hat.writes == old(hat.writes) + InitWrites(fd, hat.addr, Rows(), ledMode, ledSpeed, ledColor, fanMode, fanSpeed)
    {
      if fd < 0 {
        return Failed;
      }
      if write {
        hat.writes := hat.writes + [Write(fd, MODEL_I2C_ADDR, i2c[0], i2c[1])];
        return Wrote;
      }
      Start(hat, reading);
      outcome := Ready;
    }

    /** The running start of `model_init`: rows, LED commands, the direct fan speed, then the speed read back. */
    method Start(hat: Hat, reading: Byte)
      requires Valid()
      modifies hat`writes, this`fanCurrent
      ensures Valid() && fanCurrent == reading
      ensures hat.writes == old(hat.writes) + InitWrites(fd, hat.addr, Rows(), ledMode, ledSpeed, ledColor, fanMode, fanSpeed)
    {
      ghost var w0, rows := hat.writes, Rows();
      ghost var s := SetWrites(fd, hat.addr, rows);
      ghost var l := LedWrites(fd, hat.addr, ledMode, ledSpeed, ledColor);
      SendRows(hat);
      SendLed(hat);
      assert hat.writes == w0 + s + l;
      ghost var f: seq<Write> := [];
      if fanMode == BKDR_DIRECT {
        hat.Fan(fd, fanSpeed);
        f := [Write(fd, hat.addr, REG_FAN, FanByte(fanSpeed))];
      }
      fanCurrent := reading;
      assert hat.writes == w0 + (s + l + f);
      assert InitWrites(fd, hat.addr, rows, ledMode, ledSpeed, ledColor, fanMode, fanSpeed) == s + l + f;
    }

    /** The `rgb_set` loop of `model_init`: each row to its LED, LED 0 first. */
    method SendRows(hat: Hat)
      requires Valid()
      modifies hat`writes
      ensures hat.writes == old(hat.writes) + SetWrites(fd, hat.addr, Rows())
    {
      ghost var rows := Rows();
      for i := 0 to 3
        invariant hat.writes == old(hat.writes) + SetWrites(fd, hat.addr, rows[..i])
      {
        hat.Set(fd, i as Byte, rgb[i][0], rgb[i][1], rgb[i][2]);
        assert rows[..i + 1][..i] == rows[..i];
      }
      assert rows[..3] == rows;
    }

    /** The LED commands of `model_init`: off for mode `disable`, else the three `switch`es. */
    method SendLed(hat: Hat)
      modifies hat`writes
      ensures hat.writes == old(hat.writes) + LedWrites(fd, hat.addr, ledMode, ledSpeed, ledColor)
    {
      if ledMode == BKDR_DISABLE {
        hat.Off(fd);
      } else {
        SendEffect(hat);
        SendSpeed(hat);
        SendColor(hat);
      }
    }

    /** The `switch` on the mode: the effect number of a known word, nothing for any other. */
    method SendEffect(hat: Hat)
      modifies hat`writes
      ensures hat.writes == old(hat.writes) + EffectWrites(fd, hat.addr, ledMode)
    {
      if ledMode == BKDR_WATER {
        hat.Effect(fd, 0);
      } else if ledMode == BKDR_BREATHING {
        hat.Effect(fd, 1);
      } else if ledMode == BKDR_MARQUEE {
        hat.Effect(fd, 2);
      } else if ledMode == BKDR_RAINBOW {
        hat.Effect(fd, 3);
      } else if ledMode == BKDR_COLORFUL {
        hat.Effect(fd, 4);
      }
    }

    /** The `switch` on the speed: slow 1, fast 3, anything else 2. */
    method SendSpeed(hat: Hat)
      modifies hat`writes
      ensures hat.writes == old(hat.writes) + [Write(fd, hat.addr, REG_SPEED, LedSpeedOf(ledSpeed))]
    {
      if ledSpeed == BKDR_SLOW {
        hat.Speed(fd, 1);
      } else if ledSpeed == BKDR_FAST {
        hat.Speed(fd, 3);
      } else {
        hat.Speed(fd, 2);
      }
    }

    /** The `switch` on the colour: the colour word's number, anything else green. */
    method SendColor(hat: Hat)
      modifies hat`writes
      ensures hat.writes == old(hat.writes) + [Write(fd, hat.addr, REG_COLOR, ColorOf(ledColor))]
    {
      if ledColor == BKDR_RED {
        hat.Color(fd, 0);
      } else if ledColor == BKDR_BLUE {
        hat.Color(fd, 2);
      } else if ledColor == BKDR_YELLOW {
        hat.Color(fd, 3);
      } else if ledColor == BKDR_PURPLE {
        hat.Color(fd, 4);
      } else if ledColor == BKDR_CYAN {
        hat.Color(fd, 5);
      } else if ledColor == BKDR_WHITE {
        hat.Color(fd, 6);
      } else {
        hat.Color(fd, 1);
      }
    }

    /**
     * `model_exec` without the display: the temperature is recorded, the
     * fan speed follows FanControl.FanTarget, and `rgb_fan` is sent only
     * when the speed changes. Outside direct mode the speed kept is at
     * most 9.
     */
    method Exec(hat: Hat, t: nat)
      requires Valid()
      modifies hat`writes, this`temp, this`fanCurrent
      ensures Valid() && temp == t
      ensures var s := FanTarget(fanMode, t, fanLower, fanUpper, fanSpeed, old(fanCurrent));
              fanCurrent == s
              && hat.writes == old(hat.writes) + (if s != old(fanCurrent) then [Write(fd, hat.addr, REG_FAN, FanByte(s))] else [])
      ensures fanMode != BKDR_DIRECT ==> fanCurrent <= SPEED_MAX
    {
      temp := t;
      var speed: nat := fanCurrent;
      if fanMode != BKDR_DIRECT {
        if temp > 1000 * fanUpper {
          speed := SPEED_MAX;
        } else if temp > 1000 * fanLower {
          if fanMode == BKDR_GRADED {
            speed := Graded(temp, fanLower, fanUpper);
          } else {
            speed := fanSpeed;
          }
        } else {
          speed := 0;
        }
      }
      assert speed == FanTarget(fanMode, t, fanLower, fanUpper, fanSpeed, fanCurrent);
      if fanCurrent != speed {
        fanCurrent := speed;
        hat.Fan(fd, fanCurrent);
      }
    }
  }
}
