/** network/rule.go: the parameters of one emulated link and how they are printed for `tc`. */
module Rule {
  import opened Decimal

  const MILLISECOND: nat := 1_000_000

  /** Durations are in nanoseconds. */
  datatype Delay = Delay(value: int, leeway: int) {
    function Print(): string {
      if value <= 0 then "" else "delay " + Dec(value / MILLISECOND) + "ms"
    }

    /** What the delay amounts to on the wire, in whole milliseconds. */
    function Milliseconds(): nat {
      if value <= 0 then 0 else value / MILLISECOND
    }
  }

  datatype Loss = Loss(value: real) {
    function Print(): string {
      if value <= 0.0 || value > 1.0 then "" else "loss " + PrintHundredths(RoundHalfEven(value * 10000.0)) + "%"
    }

    /** What the loss amounts to on the wire, in hundredths of a percent. */
    function Hundredths(): nat {
      if value <= 0.0 || value > 1.0 then 0 else RoundHalfEven(value * 10000.0)
    }
  }

  datatype Rule = Rule(ip: string, delay: Delay, loss: Loss) {
    function MatchAddr(): string {
      ip + "/32"
    }
  }

  lemma MatchAddrInjective(a: Rule, b: Rule)
    ensures a.MatchAddr() == b.MatchAddr() <==> a.ip == b.ip
  {
    if a.MatchAddr() == b.MatchAddr() {
      assert a.ip == a.MatchAddr()[..|a.MatchAddr()| - 3];
      assert b.ip == b.MatchAddr()[..|b.MatchAddr()| - 3];
    }
  }
}
