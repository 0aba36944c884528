/** Values shared by the three list containers: the absent/error results that
    replace Java's `null` returns and exceptions, and the text rendering used by
    every `toString`. */
module Common {

  /** Result of a query that may find nothing (Java returns `null`). */
  datatype Option<T> = None | Some(value: T)

  /** The exceptions the containers raise. */
  datatype ListError =
    | IllegalArgument(message: string)   // thrown by SingleLinkedList.getElementAt
    | IndexOutOfBounds(index: int)       // an array index Java rejects at run time

  /** Result of an operation that returns a value or throws. */
  datatype Result<T> = Success(value: T) | Failure(error: ListError)

  /** Result of an operation that returns nothing or throws. */
  datatype Outcome = Pass | Fail(error: ListError)

  /** Renders each element with `render` (Java's `Object.toString`). */
  function Rendered<E>(render: E -> string, s: seq<E>): seq<string>
  {
    seq(|s|, i requires 0 <= i < |s| => render(s[i]))
  }

  /** The parts written one after the other with `sep` between neighbours, as a
      StringBuilder loop appends them from left to right. */
  function Joined(parts: seq<string>, sep: string): string
  {
    if |parts| == 0 then ""
    else if |parts| == 1 then parts[0]
    else Joined(parts[..|parts| - 1], sep) + sep + parts[|parts| - 1]
  }

  /** Joining two non-empty runs puts exactly one separator between them. */
  lemma {:induction false} JoinedAppend(a: seq<string>, b: seq<string>, sep: string)
    requires |a| > 0 && |b| > 0
    ensures Joined(a + b, sep) == Joined(a, sep) + sep + Joined(b, sep)
    decreases |b|
  {
    if |b| == 1 {
      assert (a + b)[..|a + b| - 1] == a;
    } else {
      var b' := b[..|b| - 1];
      assert (a + b)[..|a + b| - 1] == a + b';
      JoinedAppend(a, b', sep);
    }
  }

  /** The front-to-back reading of Joined: the first part, then a separator and the rest. */
  lemma JoinedCons(p: string, rest: seq<string>, sep: string)
    requires |rest| > 0
    ensures Joined([p] + rest, sep) == p + sep + Joined(rest, sep)
  {
    JoinedAppend([p], rest, sep);
  }

  /** Rendering distributes over concatenation of element sequences. */
  lemma RenderedAppend<E>(render: E -> string, a: seq<E>, b: seq<E>)
    ensures Rendered(render, a + b) == Rendered(render, a) + Rendered(render, b)
  {
  }

  /** The text of a list whose contents are `a + b`, both non-empty: the text of
      `a` and that of `b` inside one pair of brackets, with one ", " between. */
  lemma RenderedJoinedAppend<E>(render: E -> string, a: seq<E>, b: seq<E>)
    requires |a| > 0 && |b| > 0
    ensures "(" + Joined(Rendered(render, a + b), ", ") + ")"
         == "(" + Joined(Rendered(render, a), ", ") + ", " + Joined(Rendered(render, b), ", ") + ")"
  {
    RenderedAppend(render, a, b);
    JoinedAppend(Rendered(render, a), Rendered(render, b), ", ");
  }
}
