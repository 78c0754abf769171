/** The three std::string operations the text-area engine uses, on byte strings.
    Offsets are unsigned in C++: a position past the end makes insert, erase and substr
    throw std::out_of_range, so every function here requires an in-range position, while
    a count that runs past the end is clamped, as the standard library does. */
module ByteString {

  function Min(a: int, b: int): int { if a <= b then a else b }
  function Max(a: int, b: int): int { if a <= b then b else a }

  /** std::string::insert(pos, s) */
  function Insert(t: seq<char>, pos: nat, s: seq<char>): (r: seq<char>)
    requires pos <= |t|
    ensures |r| == |t| + |s|
    ensures r[..pos] == t[..pos] && r[pos..pos + |s|] == s && r[pos + |s|..] == t[pos..]
  {
    t[..pos] + s + t[pos..]
  }

  /** std::string::erase(pos, n): removes at most n bytes, never past the end. */
  function Erase(t: seq<char>, pos: nat, n: nat): (r: seq<char>)
    requires pos <= |t|
    ensures |r| == |t| - Min(n, |t| - pos)
    ensures r[..pos] == t[..pos] && r[pos..] == t[Min(pos + n, |t|)..]
  {
    t[..pos] + t[Min(pos + n, |t|)..]
  }

  /** std::string::substr(pos, n): at most n bytes, never past the end. */
  function Substr(t: seq<char>, pos: nat, n: nat): (r: seq<char>)
    requires pos <= |t|
    ensures |r| == Min(n, |t| - pos)
    ensures r == t[pos..pos + |r|]
  {
    t[pos..Min(pos + n, |t|)]
  }

  /** Erasing what was just inserted gives the original string back. */
  lemma EraseInserted(t: seq<char>, pos: nat, s: seq<char>)
    requires pos <= |t|
    ensures Erase(Insert(t, pos, s), pos, |s|) == t
  {
    var u := Insert(t, pos, s);
    assert u[pos + |s|..] == t[pos..];
    assert t == t[..pos] + t[pos..];
  }

  /** Inserting back what substr saw before an erase gives the original string back. */
  lemma InsertErased(t: seq<char>, pos: nat, n: nat)
    requires pos <= |t|
    ensures Insert(Erase(t, pos, n), pos, Substr(t, pos, n)) == t
  {
    var m := Min(pos + n, |t|);
    assert t == t[..pos] + t[pos..m] + t[m..];
  }
}
