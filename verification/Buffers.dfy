/** Writing into buffers. */
module Buffers {

  /** Overwrites the cells from `at` on. */
  method Store<T>(a: array<T>, at: nat, text: seq<T>)
    requires at + |text| <= a.Length
    modifies a
    ensures a[..] == old(a[..at]) + text + old(a[at + |text|..])
  {
    var k := 0;
    while k < |text|
      invariant k <= |text|
      invariant a[..] == old(a[..at]) + text[..k] + old(a[at + k..])
    {
      a[at + k] := text[k];
      k := k + 1;
    }
  }

  /** Sets all cells to the same value. */
  method Fill<T>(a: array<T>, value: T)
    modifies a
    ensures forall i :: 0 <= i < a.Length ==> a[i] == value
  {
    forall i | 0 <= i < a.Length {
      a[i] := value;
    }
  }

  /** Writes `text` behind what is already `written`; the rest of the buffer stays as it was. */
  method Append(a: array<char>, ghost orig: seq<char>, ghost written: string, at: nat, text: string)
    requires at == |written| && at + |text| <= a.Length == |orig|
    requires a[..] == written + orig[at..]
    modifies a
    ensures a[..] == (written + text) + orig[at + |text|..]
  {
    Store(a, at, text);
    assert (written + orig[at..])[..at] == written;
    assert (written + orig[at..])[at + |text|..] == orig[at + |text|..];
  }
}
