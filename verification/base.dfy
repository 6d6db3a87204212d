/** Shared vocabulary of the tile-store builder: bytes, optional values,
    the errors the builder returns, and the ASCII case mappings it uses. */
module Base {

  /** One byte of a file or of a sample buffer. */
  newtype byte = b: int | 0 <= b < 256

  datatype Option<+T> = None | Some(value: T)

  /** The errors a file-level step can return. I/O failures carry the
      operating system's message; the other four are the builder's own. */
  datatype Error =
    | IoError(message: string)
    | UnknownExtension(ext: string)   // "unknown hgt file extension: " + ext
    | InvalidSize                     // "invalid HGT size"
    | InvalidName                     // "invalid HGT file name"
    | IndexOutOfRange                 // "tile index out of range"

  datatype Result<+T> = Ok(value: T) | Err(error: Error)

  predicate IsLower(c: char) { 'a' <= c <= 'z' }

  predicate IsUpper(c: char) { 'A' <= c <= 'Z' }

  function UpperChar(c: char): (u: char)
    ensures !IsLower(u)
    ensures IsLower(c) ==> IsUpper(u) && u as int + 32 == c as int
    ensures !IsLower(c) ==> u == c
  {
    if IsLower(c) then (c as int - 32) as char else c
  }

  function LowerChar(c: char): (l: char)
    ensures !IsUpper(l)
    ensures IsUpper(c) ==> IsLower(l) && l as int == c as int + 32
    ensures !IsUpper(c) ==> l == c
  {
    if IsUpper(c) then (c as int + 32) as char else c
  }

  /** ASCII upper-casing, character by character. */
  function ToUpper(s: string): (u: string)
    ensures |u| == |s|
    ensures forall i | 0 <= i < |s| :: u[i] == UpperChar(s[i])
  {
    seq(|s|, i requires 0 <= i < |s| => UpperChar(s[i]))
  }

  /** ASCII lower-casing, character by character. */
  function ToLower(s: string): (l: string)
    ensures |l| == |s|
    ensures forall i | 0 <= i < |s| :: l[i] == LowerChar(s[i])
  {
    seq(|s|, i requires 0 <= i < |s| => LowerChar(s[i]))
  }

  lemma ToUpperAppend(s: string, t: string)
    ensures ToUpper(s + t) == ToUpper(s) + ToUpper(t)
  {
  }

  /** A slice of the second part of a concatenation. */
  lemma SliceOfSuffix<T>(a: seq<T>, b: seq<T>, lo: int, hi: int)
    requires 0 <= lo <= hi <= |b|
    ensures (a + b)[|a| + lo..|a| + hi] == b[lo..hi]
  {
    assert (a + b)[|a|..] == b;
  }

  function Min(a: int, b: int): (m: int)
  {
    if a <= b then a else b
  }
}
