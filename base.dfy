/**
 * Shared vocabulary of the checksum tool: bytes, optional values, the
 * exceptions the tool raises or lets through, and results that carry them.
 */
module Base {

  /** One octet of a downloaded body. */
  type byte = x: int | 0 <= x < 256

  datatype Option<+T> = None | Some(value: T)

  /**
   * A Python exception. `DownloadFailed` is the tool's own
   * `DownloadFailedException`; every other exception is known only by the
   * name of its class.
   */
  datatype Exception =
    | DownloadFailed(message: string)
    | Raised(className: string)
  {
    /** `exception.__class__.__name__` */
    function ClassName(): string {
      match this
      case DownloadFailed(_) => "DownloadFailedException"
      case Raised(c) => c
    }
  }

  /** A value, or the exception raised instead of returning it. */
  datatype Result<+T> = Ok(value: T) | Err(error: Exception)

  /** The HTTP status every step of the tool treats as success. */
  const HTTP_OK := 200

  /** Concatenation of a sequence of sequences. */
  function Flatten<T>(ss: seq<seq<T>>): seq<T> {
    if ss == [] then [] else ss[0] + Flatten(ss[1..])
  }

  lemma {:induction false} FlattenAppend<T>(a: seq<seq<T>>, b: seq<seq<T>>)
    ensures Flatten(a + b) == Flatten(a) + Flatten(b)
  {
    if a == [] {
      assert a + b == b;
    } else {
      assert (a + b)[1..] == a[1..] + b;
      FlattenAppend(a[1..], b);
    }
  }

  /** Every element of one of the pieces is an element of the whole. */
  lemma {:induction false} InFlatten<T>(ss: seq<seq<T>>, i: nat, x: T)
    requires i < |ss| && x in ss[i]
    ensures x in Flatten(ss)
  {
    if i > 0 {
      assert ss[1..][i - 1] == ss[i];
      InFlatten(ss[1..], i - 1, x);
    }
  }
}
