/** `filemap_files_with_extension` of `util_miniz.hpp`: the names in an
    unpacked archive (a `std::map` from file name to contents) whose
    extension is the one asked for. */
module MinizFilemap {
  import opened Bytes
  import opened StdStrings
  import opened StringOrder

  /** `split_string(name, '.').back()`: the last `.`-separated piece of a
      non-empty name, which `back()` needs to exist. */
  function Extension(name: string): (r: string)
    requires name != []
  {
    var pieces := SplitString(name, '.');
    pieces[|pieces| - 1]
  }

  /** `last` ends `s`, holds no separator, and is the whole of `s` or
      preceded by a separator. */
  predicate EndPiece(s: string, sep: char, last: string)
  {
    && |last| <= |s| && s[|s| - |last|..] == last
    && sep !in last
    && (|last| == |s| || s[|s| - |last| - 1] == sep)
  }

  /** The last piece is the longest end of the string without a separator:
      either the whole string, or what follows its last separator. */
  lemma {:induction false} LastPiece(s: string, sep: char)
    ensures EndPiece(s, sep, Pieces(s, sep)[|Pieces(s, sep)| - 1])
    decreases |s|
  {
    var i := IndexOf(s, sep);
    var whole := Pieces(s, sep);
    if i < |s| {
      var rest := s[i + 1..];
      LastPiece(rest, sep);
      var p := Pieces(rest, sep);
      var last := p[|p| - 1];
      assert EndPiece(rest, sep, last);
      assert whole == [s[..i]] + p;
      assert whole[|whole| - 1] == last;
      var n := |s| - |last|;
      assert n == i + 1 + (|rest| - |last|);
      assert s[n..] == rest[|rest| - |last|..];
      assert |last| < |rest| ==> s[n - 1] == rest[|rest| - |last| - 1];
      assert |last| == |rest| ==> s[n - 1] == s[i];
      assert EndPiece(s, sep, last);
    } else {
      assert whole == [s];
      assert s[..i] == s && s[0..] == s;
      assert EndPiece(s, sep, s);
    }
  }

  /** A name without a `.` is its own extension; otherwise the extension is
      what follows the last `.`. */
  lemma ExtensionAfterLastDot(name: string)
    requires name != []
    ensures '.' !in name ==> Extension(name) == name
    ensures forall d :: 0 <= d < |name| && name[d] == '.' && '.' !in name[d + 1..] ==> Extension(name) == name[d + 1..]
  {
    LastPiece(name, '.');
    var e := Extension(name);
  }

  /** `filemap_files_with_extension`: visits the names in ascending order,
      as `std::map` keeps them, and keeps those whose extension is
      `targetExtension`. */
  method FilemapFilesWithExtension(fileMap: map<string, seq<Byte>>, targetExtension: string)
    returns (fileList: seq<string>)
    requires forall name :: name in fileMap ==> name != []
    ensures Ascending(fileList)
    ensures forall name :: name in fileList ==> name in fileMap
    ensures forall name :: name in fileMap ==> (name in fileList <==> Extension(name) == targetExtension)
  {
    var names := SortedKeys(fileMap.Keys);
    assert forall j :: 0 <= j < |names| ==> names[j] in fileMap;
    fileList := [];
    for i := 0 to |names|
      invariant Ascending(fileList)
      invariant forall name :: name in fileList ==> name in names[..i]
      invariant forall j :: 0 <= j < i ==> (names[j] in fileList <==> Extension(names[j]) == targetExtension)
    {
      var name := names[i];
      LessIrreflexive(name);
      assert name !in fileList;
      if Extension(name) == targetExtension {
        forall m | 0 <= m < |fileList|
          ensures Less(fileList[m], name)
        {
          assert fileList[m] in names[..i];
        }
        fileList := fileList + [name];
      }
    }
  }
}
