/**
 * Output file name of `main`: `t = fileName.find_last_of(".")`, then
 * `fileName.erase(t)` and `fileName += "_b2n.bmp"`.
 *
 * `find_last_of` returns `npos` when the name holds no '.', and
 * `erase(npos)` throws `std::out_of_range` (the position exceeds the
 * length); nothing in `main` catches it, so the program terminates there.
 * Positions are ints here and `npos` is -1.
 */
module FileName {

  const Suffix := "_b2n.bmp"

  /** `find_last_of('.')`: the position of the last '.', or -1 (npos) when
      there is none. */
  function LastDot(s: string): (t: int)
    ensures -1 <= t < |s|
    ensures t >= 0 ==> s[t] == '.'
    ensures forall i :: t < i < |s| ==> s[i] != '.'
    decreases |s|
  {
    if s == [] then -1
    else if s[|s| - 1] == '.' then |s| - 1
    else LastDot(s[..|s| - 1])
  }

  /** What the three lines produce: the new name, or the `out_of_range`
      exception of `erase(npos)`. */
  datatype Outcome = Renamed(name: string) | OutOfRange

  function OutputName(s: string): (r: Outcome)
    ensures r.OutOfRange? <==> '.' !in s
    ensures r.Renamed? ==> exists t :: 0 <= t < |s| && s[t] == '.' && '.' !in s[t + 1..]
                                       && r.name == s[..t] + Suffix
  {
    var t := LastDot(s);
    if t < 0 then OutOfRange
    else
      var tail := s[t + 1..];
      assert '.' !in tail by {
        forall i | 0 <= i < |tail| ensures tail[i] != '.' {
          assert tail[i] == s[t + 1 + i];
        }
      }
      Renamed(s[..t] + Suffix)
  }

  /** The extension replaced is the one after the last '.': for any stem
      (which may itself contain dots) and any extension without a dot,
      `stem.ext` becomes `stem_b2n.bmp`. */
  lemma ReplacesLastExtension(stem: string, ext: string)
    requires '.' !in ext
    ensures OutputName(stem + "." + ext) == Renamed(stem + Suffix)
  {
    var s := stem + "." + ext;
    assert s[|stem|] == '.';
    var t := LastDot(s);
    assert forall j :: |stem| < j < |s| ==> s[j] == ext[j - |stem| - 1];
    assert t == |stem|;
    assert s[..t] == stem;
  }

  /** The search for '.' runs over the whole path, directories included: a
      file without an extension inside a directory with a dot in its name
      loses the rest of its path. */
  lemma DotInDirectory()
    ensures OutputName("maps.d/rock") == Renamed("maps_b2n.bmp")
  {
    ReplacesLastExtension("maps", "d/rock");
  }

  /** A name with no '.' at all stops the program with `out_of_range`. */
  lemma NoDotIsOutOfRange()
    ensures OutputName("rock") == OutOfRange
  {
  }
}
