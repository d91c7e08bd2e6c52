/** Small string helpers shared by the text formats of the model: an optional
    value, the first position of a character, and the splitting facts the
    parsers rely on. */
module Text {

  datatype Option<T> = None | Some(value: T)

  /** The first position of `c` in `s`, or `|s|` when there is none
      (`indexOf`, with "not found" as the length). */
  function IndexOf(s: string, c: char): (i: nat)
    ensures i <= |s|
    ensures i < |s| ==> s[i] == c
    ensures forall j :: 0 <= j < i ==> s[j] != c
  {
    if s == [] then 0
    else if s[0] == c then 0
    else 1 + IndexOf(s[1..], c)
  }

  /** In a text made of a `c`-free prefix followed by something starting with
      `c`, the first `c` is right after the prefix. */
  lemma IndexOfAfterPrefix(prefix: string, rest: string, c: char)
    requires c !in prefix && rest != [] && rest[0] == c
    ensures IndexOf(prefix + rest, c) == |prefix|
  {
    var s := prefix + rest;
    assert s[|prefix|] == c;
    assert forall j :: 0 <= j < |prefix| ==> s[j] == prefix[j];
  }

  /** Concatenation is associative. */
  lemma SeqAssoc<T>(a: seq<T>, b: seq<T>, c: seq<T>)
    ensures (a + b) + c == a + (b + c)
  {
  }

  /** A concatenation splits back into its parts. */
  lemma ConcatParts(a: string, b: string)
    ensures (a + b)[..|a|] == a && (a + b)[|a|..] == b
  {
  }
}
