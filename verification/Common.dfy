// Outcomes shared by every module: an optional value, and a result that
// carries the Python exception a failing operation raises.
module Common {

  datatype Option<+T> = None | Some(value: T)

  datatype Error =
    | ValueError
    | IndexError
    | AssertionError
    | TypeError
    | UnboundLocalError
    | SolverException
    | FetchFailed

  datatype Result<+T> = Ok(value: T) | Err(error: Error)

  function Max(a: int, b: int): int {
    if a >= b then a else b
  }

  lemma TakeNext<T>(s: seq<T>, k: nat)
    requires k < |s|
    ensures s[..k + 1] == s[..k] + [s[k]]
  {
  }

  lemma DropNext<T>(s: seq<T>, k: nat)
    requires k < |s|
    ensures s[k..] == [s[k]] + s[k + 1..] && s[k..][1..] == s[k + 1..]
  {
  }

  lemma CutAround<T>(s: seq<T>, k: nat)
    requires k < |s|
    ensures s == s[..k] + ([s[k]] + s[k + 1..])
  {
  }

  lemma Associate<T>(a: seq<T>, b: seq<T>, c: seq<T>)
    ensures (a + b) + c == a + (b + c)
  {
  }
}
