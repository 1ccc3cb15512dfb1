/**
 * rgb.c: the commands of the HAT's LED and fan controller. Each command is
 * a short series of one-byte register writes over I2C; a guard on the
 * argument decides whether anything is written at all. The bus is
 * modelled by the writes it has carried, in order.
 */
module Rgb {
  import opened CStrings

  /** One `i2c_write`: descriptor, device address, register, data byte. */
  datatype Write = Write(fd: int, addr: Byte, reg: Byte, data: Byte)

  const REG_NUM: Byte := 0x00
  const REG_R: Byte := 0x01
  const REG_G: Byte := 0x02
  const REG_B: Byte := 0x03
  const REG_EFFECT: Byte := 0x04
  const REG_SPEED: Byte := 0x05
  const REG_COLOR: Byte := 0x06
  const REG_OFF: Byte := 0x07
  const REG_FAN: Byte := 0x08

  /** The LED number `rgb_set` sends: 0, 1 or 2 as given, anything else 0xFF. */
  function LedByte(num: Byte): (r: Byte)
    ensures r == 0xFF <==> num >= 3
    ensures r != 0xFF ==> r == num
  {
    if num >= 3 then 0xFF else num
  }

  /** `rgb_effect` writes for effects 0..4. */
  predicate EffectOk(effect: Byte) {
    effect <= 4
  }

  /** `rgb_speed` writes for speeds 1..3. */
  predicate SpeedOk(speed: Byte) {
    1 <= speed <= 3
  }

  /** `rgb_color` writes for colours 0..6. */
  predicate ColorOk(color: Byte) {
    color <= 6
  }

  /**
   * The fan byte `rgb_fan` sends for a speed: 0 stops the fan, speeds 1..8
   * are sent as 2..9, and anything faster as 1 (full speed).
   */
  function FanByte(speed: Byte): (r: Byte)
    ensures r <= 9
    ensures r == 0 <==> speed == 0
    ensures r == 1 <==> speed > 8
  {
    if speed > 8 then 1 else if speed > 0 then speed + 1 else 0
  }

  /** The speed a fan byte stands for: the inverse of FanByte on 0..9. */
  function FanSpeed(b: Byte): (r: Byte)
    requires b <= 9
    ensures r <= 9
  {
    if b == 1 then 9 else if b > 1 then b - 1 else 0
  }

  /** Every speed 0..9 has its own fan byte, and the byte gives the speed back; faster speeds act as 9. */
  lemma FanByteRoundTrip(speed: Byte)
    ensures FanSpeed(FanByte(speed)) == if speed > 9 then 9 else speed
    ensures speed <= 9 ==> FanByte(FanSpeed(FanByte(speed))) == FanByte(speed)
  {
  }

  /** Two speeds in 0..9 with the same fan byte are the same speed. */
  lemma FanByteInjective(s1: Byte, s2: Byte)
    requires s1 <= 9 && s2 <= 9 && FanByte(s1) == FanByte(s2)
    ensures s1 == s2
  {
    FanByteRoundTrip(s1);
    FanByteRoundTrip(s2);
  }

  /** The HAT on its bus: the writes sent to it so far. */
  class Hat {
    /** HAT_I2C_ADDR: the device address every command writes to. */
    const addr: Byte
    var writes: seq<Write>

    constructor (addr: Byte)
      ensures this.addr == addr && writes == []
    {
      this.addr := addr;
      writes := [];
    }

    /** `rgb_set`: select LED `num` (all for 3 and up), then send its red, green and blue. */
    method Set(fd: int, num: Byte, r: Byte, g: Byte, b: Byte)
      modifies this`writes
      ensures writes == old(writes) + [Write(fd, addr, REG_NUM, LedByte(num)), Write(fd, addr, REG_R, r),
                                       Write(fd, addr, REG_G, g), Write(fd, addr, REG_B, b)]
    {
      var n := num;
      if n >= 3 {
        n := 0xFF;
      }
      writes := writes + [Write(fd, addr, REG_NUM, n)];
      writes := writes + [Write(fd, addr, REG_R, r)];
      writes := writes + [Write(fd, addr, REG_G, g)];
      writes := writes + [Write(fd, addr, REG_B, b)];
    }

    /** `rgb_effect`: one write of the effect when it is 0..4, else none. */
    method Effect(fd: int, effect: Byte)
      modifies this`writes
      ensures writes == old(writes) + if EffectOk(effect) then [Write(fd, addr, REG_EFFECT, effect)] else []
    {
      if effect <= 4 {
        writes := writes + [Write(fd, addr, REG_EFFECT, effect)];
      }
    }

    /** `rgb_speed`: one write of the speed when it is 1..3, else none. */
    method Speed(fd: int, speed: Byte)
      modifies this`writes
      ensures writes == old(writes) + if SpeedOk(speed) then [Write(fd, addr, REG_SPEED, speed)] else []
    {
      if speed >= 1 && speed <= 3 {
        writes := writes + [Write(fd, addr, REG_SPEED, speed)];
      }
    }

    /** `rgb_color`: one write of the colour when it is 0..6, else none. */
    method Color(fd: int, color: Byte)
      modifies this`writes
      ensures writes == old(writes) + if ColorOk(color) then [Write(fd, addr, REG_COLOR, color)] else []
    {
      if color <= 6 {
        writes := writes + [Write(fd, addr, REG_COLOR, color)];
      }
    }

    /** `rgb_off`: write 0 to the off register. */
    method Off(fd: int)
      modifies this`writes
      ensures writes == old(writes) + [Write(fd, addr, REG_OFF, 0)]
    {
      var data := 0x00;
      writes := writes + [Write(fd, addr, REG_OFF, data)];
    }

    /** `rgb_fan`: write the fan byte of `speed`. */
    method Fan(fd: int, speed: Byte)
      modifies this`writes
      ensures writes == old(writes) + [Write(fd, addr, REG_FAN, FanByte(speed))]
    {
      var data := 0x00;
      if speed > 8 {
        data := 1;
      } else if speed > 0 {
        data := speed + 1;
      }
      writes := writes + [Write(fd, addr, REG_FAN, data)];
    }
  }
}
