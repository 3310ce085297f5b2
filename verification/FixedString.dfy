// NUL-terminated character buffers of fixed size. Characters are bytes.
module FixedString {
  type Byte = x: int | 0 <= x < 256

  ghost predicate Terminated(a: array<Byte>)
    reads a
  {
    a.Length >= 1 && a[a.Length - 1] == 0
  }

  // The characters before the terminator; they may include NUL.
  ghost function Content(a: array<Byte>): seq<Byte>
    requires a.Length >= 1
    reads a
  {
    a[..a.Length - 1]
  }

  // basic_fixed_string(): all NUL.
  method Blank(size: nat) returns (res: array<Byte>)
    requires size >= 1
    ensures fresh(res) && res.Length == size && forall i :: 0 <= i < size ==> res[i] == 0
  {
    res := new Byte[size];
    for i := 0 to size
      invariant forall k :: 0 <= k < i ==> res[k] == 0
    {
      res[i] := 0;
    }
  }

  // basic_fixed_string(const CharT (&a)[S]) on the characters and their terminator.
  method FromChars(chars: seq<Byte>) returns (res: array<Byte>)
    ensures fresh(res) && Terminated(res) && Content(res) == chars
  {
    res := Blank(|chars| + 1);
    for i := 0 to |chars|
      invariant res[..i] == chars[..i] && res[|chars|] == 0
    {
      res[i] := chars[i];
    }
  }

  // operator+
  method Concat(lhs: array<Byte>, rhs: array<Byte>) returns (res: array<Byte>)
    requires lhs.Length >= 1 && rhs.Length >= 1
    ensures fresh(res) && Terminated(res) && Content(res) == Content(lhs) + Content(rhs)
  {
    var n, m := lhs.Length, rhs.Length;
    res := Blank(n + m - 1);
    for i := 0 to n - 1
      invariant forall k :: 0 <= k < i ==> res[k] == lhs[k]
      invariant res[n + m - 2] == 0
    {
      res[i] := lhs[i];
    }
    for j := 0 to m - 1
      invariant res[..n - 1] == lhs[..n - 1]
      invariant res[n - 1..n - 1 + j] == rhs[..j]
      invariant res[n + m - 2] == 0
    {
      res[n + j - 1] := rhs[j];
    }
    assert res[..n + m - 2] == res[..n - 1] + res[n - 1..n + m - 2];
  }
}
