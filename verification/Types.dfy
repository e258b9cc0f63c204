/** Value types shared by the server, the client daemon and the modem library. */
module Types {

  type byte = x: int | 0 <= x < 0x100
  type U16 = x: int | 0 <= x < 0x1_0000

  datatype Option<+T> = None | Some(value: T)

  /** One watering window: the valve is to be open from `start` to `stop`, both included,
      in minutes of the day. Nothing forces `start <= stop`. */
  datatype Schedule = Schedule(scheduleId: U16, valveId: U16, start: U16, stop: U16)

  /** Truncation of a size to `uint16_t`. */
  function ToU16(n: nat): U16 {
    n % 0x1_0000
  }

  /** Truncating before or after a product comes to the same. */
  lemma ToU16Product(k: nat, n: nat)
    ensures ToU16(k * ToU16(n)) == ToU16(k * n)
  {
    var q := n / 0x1_0000;
    assert n == q * 0x1_0000 + ToU16(n);
    assert k * n == k * q * 0x1_0000 + k * ToU16(n) by {
      assert k * (q * 0x1_0000 + ToU16(n)) == k * (q * 0x1_0000) + k * ToU16(n);
    }
    ModuloCancels(k * ToU16(n), k * q);
  }

  lemma {:induction false} ModuloCancels(a: nat, q: nat)
    ensures (q * 0x1_0000 + a) % 0x1_0000 == a % 0x1_0000
  {
  }
}
