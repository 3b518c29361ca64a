/** Data types shared by every part of the model. */
module Basics {

  datatype Option<+T> = None | Some(value: T)

  /** A singly linked list (GSList), used as a stack: the head is the top. */
  datatype List<+T> = Nil | Cons(head: T, tail: List<T>)

  /** A C `int` (and GTime, which is a gint32). */
  type int32 = x: int | -0x8000_0000 <= x < 0x8000_0000

  /** The conversion of an unsigned long to a gint32: the low 32 bits, read as two's complement. */
  function Wrap32(x: int): int32 {
    var low := x % 0x1_0000_0000;
    if low < 0x8000_0000 then low else low - 0x1_0000_0000
  }

  /** The conversion of a gint32 to a 64-bit unsigned long. */
  function WidenToULong(x: int32): nat {
    if x < 0 then x + 0x1_0000_0000_0000_0000 else x
  }

  lemma WrapUndoesWiden(x: int32)
    ensures Wrap32(WidenToULong(x)) == x
  {
    assert 0x1_0000_0000_0000_0000 == 0x1_0000_0000 * 0x1_0000_0000;
  }

  /** The components of a key, from the root down. */
  type Path = seq<string>

  predicate NoDup<T(==)>(s: seq<T>) { forall i, j :: 0 <= i < j < |s| ==> s[i] != s[j] }

  /** The list without the first occurrence of an element. */
  function Without<T(==)>(s: seq<T>, x: T): seq<T> {
    if s == [] then [] else if s[0] == x then s[1..] else [s[0]] + Without(s[1..], x)
  }

  lemma NothingIn<T>(s: seq<T>)
    ensures (forall x: T :: x !in s) ==> s == []
  {
    if s != [] { assert s[0] in s; }
  }

  lemma HeadTail<T>(a: seq<T>, b: seq<T>)
    requires a != [] && b != []
    ensures a == b <==> a[0] == b[0] && a[1..] == b[1..]
  {
    assert a == [a[0]] + a[1..] && b == [b[0]] + b[1..];
  }

  function Reverse<T>(s: seq<T>): (r: seq<T>)
    ensures |r| == |s|
  {
    if s == [] then [] else Reverse(s[1..]) + [s[0]]
  }

  lemma ReverseAppend<T>(s: seq<T>, x: T)
    ensures Reverse(s + [x]) == [x] + Reverse(s)
  {
    if s == [] {
      assert s + [x] == [x];
    } else {
      assert (s + [x])[1..] == s[1..] + [x];
      ReverseAppend(s[1..], x);
    }
  }

  lemma {:induction false} ReverseTwice<T>(s: seq<T>)
    ensures Reverse(Reverse(s)) == s
  {
    if s != [] {
      ReverseTwice(s[1..]);
      ReverseAppend(Reverse(s[1..]), s[0]);
    }
  }

  /** g_ascii_isspace. */
  predicate IsSpace(c: char) {
    c == ' ' || c == '\t' || c == '\n' || c == '\r' || c == 12 as char
  }
}
