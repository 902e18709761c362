/** Shared value types: bytes, 16-bit words, optional values and codec results. */
module Prelude {

  type byte = x: int | 0 <= x < 0x100

  type u16 = x: int | 0 <= x < 0x1_0000

  datatype Option<+T> = None | Some(value: T)

  /** A codec result. The Go code distinguishes its decoding errors only by message text. */
  datatype Result<+T> = Ok(value: T) | Err

  /** How one operation ended. Crashed means that the process died inside it: nothing after it ran. */
  datatype Outcome = Done | Failed | Crashed

  lemma Associates<T>(a: seq<T>, b: seq<T>, c: seq<T>)
    ensures a + b + c == a + (b + c)
  {
  }

  lemma HeadAndRest<T>(a: seq<T>, b: seq<T>)
    requires a != []
    ensures a == [a[0]] + a[1..] && a + b == [a[0]] + (a[1..] + b)
  {
  }

  lemma Pick<T>(s: set<T>) returns (x: T)
    requires s != {}
    ensures x in s
  {
    x :| x in s;
  }

  lemma {:induction false} BiggerThanAll(used: set<int>) returns (y: int)
    ensures forall x | x in used :: x < y
  {
    y := 0;
    if used != {} {
      var x := Pick(used);
      y := BiggerThanAll(used - {x});
      if y <= x { y := x + 1; }
      assert forall z | z in used :: z == x || z in used - {x};
    }
  }

  /** Any element, as in iteration over a Go map. */
  method Choose<T(==)>(s: set<T>) returns (x: T)
    requires s != {}
    ensures x in s
  {
    x :| x in s;
  }
}
