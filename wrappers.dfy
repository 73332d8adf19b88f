/** The optional values and the failure outcomes of the Java code: `null`
    returns and `Optional.empty()` become `None`, and an unchecked exception
    raised by the code becomes `Err`. */
module Wrappers {

  datatype Option<T> = None | Some(value: T)

  /** The unchecked exceptions the modelled Java code can raise. A Java
      `assert` that checks a documented precondition of a method (a unit
      stands on a square) becomes a `requires` of the model; no other
      `assert` of the source is modelled. `IllegalArgument` is what
      `Random.nextInt` throws for a bound that is not positive and
      `DivisionByZero` is Java's `ArithmeticException` for `x % 0`.
      `Diverges` marks a loop of the source that runs out of the fuel the
      model gives it. */
  datatype Error = NullPointer | IndexOutOfBounds | IllegalArgument | DivisionByZero | Diverges

  datatype Result<T> = Ok(value: T) | Err(error: Error)

  /** Java's integer division, which truncates toward zero (Dafny's `/`
      is Euclidean and differs for a negative dividend). */
  function JavaDiv(a: int, b: int): (q: int)
    requires b > 0
    ensures a >= 0 ==> 0 <= a - q * b < b
    ensures a < 0 ==> -b < a - q * b <= 0
  {
    if a >= 0 then a / b else -((-a) / b)
  }

  /** Java's `%`: the remainder of the division truncated toward zero; it
      has the sign of the dividend, and a negative divisor gives the same
      remainder as its absolute value. */
  function JavaRem(a: int, b: int): (r: int)
    requires b != 0
    ensures a >= 0 ==> r == a % (if b > 0 then b else -b)
    ensures a < 0 ==> -(if b > 0 then b else -b) < r <= 0
  {
    var m := if b > 0 then b else -b;
    a - JavaDiv(a, m) * m
  }

  /** The remainder of x + 1 is the successor of the remainder of x,
      wrapped at n. */
  lemma ModSucc(x: nat, n: nat)
    requires n > 0
    ensures (x % n + 1) % n == (x + 1) % n
  {
    var q, r := x / n, x % n;
    assert x == q * n + r;
    if r + 1 < n {
      ModUnique(x + 1, n, q, r + 1);
      ModUnique(r + 1, n, 0, r + 1);
    } else {
      assert x + 1 == (q + 1) * n + 0;
      ModUnique(x + 1, n, q + 1, 0);
      ModUnique(r + 1, n, 1, 0);
    }
  }

  lemma ModUnique(a: nat, n: nat, q: nat, r: nat)
    requires n > 0 && a == q * n + r && r < n
    ensures a % n == r
  {
    var q', r' := a / n, a % n;
    assert a == q' * n + r';
    if q' < q {
      MulGap(q, q', n);
    } else if q' > q {
      MulGap(q', q, n);
    }
  }

  lemma MulGap(q: nat, q': nat, n: nat)
    requires q' < q
    ensures q * n - q' * n >= n
  {
    assert q * n - q' * n == (q - q') * n;
    MulAtLeast(q - q', n);
  }

  lemma MulAtLeast(m: nat, n: nat)
    requires m >= 1
    ensures m * n >= n
  {
    assert m * n == (m - 1) * n + n;
  }
}
