/**
 * The boundary between the driver and the STM32 HAL. Each HAL call the driver makes
 * (`HAL_GPIO_WritePin`, `HAL_SPI_Transmit`, `HAL_SPI_TransmitReceive`) is recorded as one
 * event of a bus trace; this module says what a well-formed trace is and proves what
 * such a trace guarantees about chip-select.
 */
module Bus {
  import opened Registers

  /** A C pointer to a HAL object (an SPI handle or a GPIO port): NULL, or some object. */
  datatype Handle = Null | Handle(id: nat)

  /** One HAL call, with the arguments that matter to the protocol (the timeout is left out). */
  datatype BusEvent =
    | PinWrite(port: Handle, pin: uint16, high: bool)
    | Transmit(spi: Handle, sent: seq<byte>)
    | TransmitReceive(spi: Handle, sent: seq<byte>, received: seq<byte>)
  {
    /** Drives chip-select to its active (low) level. */
    predicate IsCsLow() { PinWrite? && !high }

    /** Drives chip-select to its inactive (high) level. */
    predicate IsCsHigh() { PinWrite? && high }

    /** Moves bytes over the SPI bus. */
    predicate IsExchange() { Transmit? || TransmitReceive? }
  }

  /**
   * A trace made of whole transactions only: chip-select low, exactly one exchange,
   * chip-select high again on the same port and pin.
   */
  ghost predicate Framed(t: seq<BusEvent>)
    decreases |t|
  {
    t == [] ||
    (|t| >= 3 && t[0].IsCsLow() && t[1].IsExchange() && t[2].IsCsHigh() &&
     t[2].port == t[0].port && t[2].pin == t[0].pin && Framed(t[3..]))
  }

  /** The exchanges of a trace, in order. */
  function Exchanges(t: seq<BusEvent>): seq<BusEvent> {
    if t == [] then [] else (if t[0].IsExchange() then [t[0]] else []) + Exchanges(t[1..])
  }

  /** How many times a trace drives chip-select low. */
  function CsLowCount(t: seq<BusEvent>): nat {
    if t == [] then 0 else (if t[0].IsCsLow() then 1 else 0) + CsLowCount(t[1..])
  }

  /** How many times a trace drives chip-select high. */
  function CsHighCount(t: seq<BusEvent>): nat {
    if t == [] then 0 else (if t[0].IsCsHigh() then 1 else 0) + CsHighCount(t[1..])
  }

  /** Whole transactions followed by whole transactions are whole transactions. */
  lemma {:induction false} FramedAppend(a: seq<BusEvent>, b: seq<BusEvent>)
    requires Framed(a) && Framed(b)
    ensures Framed(a + b)
    decreases |a|
  {
    if a != [] {
      assert (a + b)[3..] == a[3..] + b;
      assert (a + b)[0] == a[0] && (a + b)[1] == a[1] && (a + b)[2] == a[2];
      FramedAppend(a[3..], b);
    } else {
      assert a + b == b;
    }
  }

  /** Collecting the exchanges commutes with concatenating traces. */
  lemma {:induction false} ExchangesAppend(a: seq<BusEvent>, b: seq<BusEvent>)
    ensures Exchanges(a + b) == Exchanges(a) + Exchanges(b)
    decreases |a|
  {
    if a == [] {
      assert a + b == b;
    } else {
      assert (a + b)[1..] == a[1..] + b;
      ExchangesAppend(a[1..], b);
    }
  }

  /** Counting over the first transaction of a well-formed trace. */
  lemma CountsOfFirstTransaction(t: seq<BusEvent>)
    requires |t| >= 3 && t[0].IsCsLow() && t[1].IsExchange() && t[2].IsCsHigh()
    ensures CsLowCount(t) == 1 + CsLowCount(t[3..])
    ensures CsHighCount(t) == 1 + CsHighCount(t[3..])
    ensures Exchanges(t) == [t[1]] + Exchanges(t[3..])
  {
    var t1, t2 := t[1..], t[2..];
    assert t1[1..] == t2 && t2[1..] == t[3..];
    assert t1[0] == t[1] && t2[0] == t[2];
    assert CsLowCount(t) == 1 + CsLowCount(t1);
    assert CsLowCount(t1) == CsLowCount(t2) == CsLowCount(t[3..]);
    assert CsHighCount(t) == CsHighCount(t1) == CsHighCount(t2);
    assert CsHighCount(t2) == 1 + CsHighCount(t[3..]);
    assert Exchanges(t) == Exchanges(t1);
    assert Exchanges(t1) == [t[1]] + Exchanges(t2);
    assert Exchanges(t2) == Exchanges(t[3..]);
  }

  /**
   * In a well-formed trace chip-select goes low exactly as often as it goes high, and
   * exactly once per exchange; the trace is three events per exchange.
   */
  lemma {:induction false} FramedCounts(t: seq<BusEvent>)
    requires Framed(t)
    ensures CsLowCount(t) == |Exchanges(t)|
    ensures CsHighCount(t) == |Exchanges(t)|
    ensures |t| == 3 * |Exchanges(t)|
    decreases |t|
  {
    if t != [] {
      CountsOfFirstTransaction(t);
      FramedCounts(t[3..]);
    }
  }

  /**
   * Position by position: in a well-formed trace, event k drives chip-select low when
   * k mod 3 is 0, is an exchange when k mod 3 is 1, and drives chip-select high when
   * k mod 3 is 2.
   */
  lemma {:induction false} FramedShape(t: seq<BusEvent>)
    requires Framed(t)
    ensures |t| % 3 == 0
    ensures forall k :: 0 <= k < |t| ==>
      (t[k].IsCsLow() <==> k % 3 == 0) &&
      (t[k].IsExchange() <==> k % 3 == 1) &&
      (t[k].IsCsHigh() <==> k % 3 == 2)
    decreases |t|
  {
    if t != [] {
      var rest := t[3..];
      FramedShape(rest);
      forall k | 3 <= k < |t|
        ensures (t[k].IsCsLow() <==> k % 3 == 0) &&
                (t[k].IsExchange() <==> k % 3 == 1) &&
                (t[k].IsCsHigh() <==> k % 3 == 2)
      {
        assert t[k] == rest[k - 3];
        assert k % 3 == (k - 3) % 3;
      }
    }
  }

  /**
   * Chip-select brackets every exchange: the event just before an exchange drives
   * chip-select low and the event just after drives it high again, on the same pin.
   */
  lemma {:induction false} FramedBracketsExchanges(t: seq<BusEvent>, k: int)
    requires Framed(t)
    requires 0 <= k < |t| && t[k].IsExchange()
    ensures 0 < k < |t| - 1
    ensures t[k - 1].IsCsLow() && t[k + 1].IsCsHigh()
    ensures t[k - 1].port == t[k + 1].port && t[k - 1].pin == t[k + 1].pin
    decreases |t|
  {
    if k != 1 {
      assert k >= 3 by { FramedShape(t); }
      assert t[3..][k - 3] == t[k];
      FramedBracketsExchanges(t[3..], k - 3);
    }
  }

  /** A non-empty well-formed trace ends with chip-select driven high. */
  lemma {:induction false} FramedEndsHigh(t: seq<BusEvent>)
    requires Framed(t) && t != []
    ensures t[|t| - 1].IsCsHigh()
    decreases |t|
  {
    if |t| > 3 {
      FramedEndsHigh(t[3..]);
    }
  }
}
