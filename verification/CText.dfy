/** C characters and NUL-terminated strings. */
module CText {
  type CChar = c: int | -128 <= c < 128

  /** The characters of a NUL-terminated buffer. */
  function CString(s: seq<CChar>): seq<CChar>
  {
    if s == [] || s[0] == 0 then [] else [s[0]] + CString(s[1..])
  }

  lemma {:induction false} CStringStops(s: seq<CChar>, rest: seq<CChar>)
    requires forall i :: 0 <= i < |s| ==> s[i] != 0
    ensures CString(s + [0] + rest) == s
  {
    if s == [] {
      assert s + [0] + rest == [0] + rest;
    } else {
      CStringStops(s[1..], rest);
      assert (s + [0] + rest)[1..] == s[1..] + [0] + rest;
    }
  }

  /** Text without a NUL is read whole. */
  lemma {:induction false} CStringWhole(s: seq<CChar>)
    requires forall i :: 0 <= i < |s| ==> s[i] != 0
    ensures CString(s) == s
  {
    if s != [] {
      CStringWhole(s[1..]);
    }
  }
}
