/**
  `kedro_wings/wing_info.py`: the record a dataset name is parsed into and `parse_wing_info`,
  which recognises a registered extension at the end of the name and splits the rest
  into a directory and a name.
 */
module Wings {
  import opened Results
  import PosixPath
  import StableSort

  /** `WingInfo`: all fields default to "", and the all-default value means "no extension matched". */
  datatype WingInfo = WingInfo(directory: string, name: string, extension: string, basename: string)

  /** `WingInfo()`. */
  const Sentinel := WingInfo("", "", "", "")

  /** `s.endswith(e)`: an exact, case-sensitive suffix test. */
  predicate EndsWith(s: string, e: string) {
    |e| <= |s| && s[|s| - |e|..] == e
  }

  function CountChar(s: string, c: char): nat {
    if s == [] then 0 else (if s[0] == c then 1 else 0) + CountChar(s[1..], c)
  }

  /** `s.split(sep)`: the pieces between occurrences of `sep`, empty pieces included. */
  function SplitOn(s: string, sep: char): (parts: seq<string>)
    ensures |parts| == CountChar(s, sep) + 1
    ensures forall i :: 0 <= i < |parts| ==> sep !in parts[i]
  {
    if s == [] then [""]
    else
      var rest := SplitOn(s[1..], sep);
      if s[0] == sep then [""] + rest
      else [[s[0]] + rest[0]] + rest[1..]
  }

  /** `len(x.split("."))`: the first sort key of the extension priority. */
  function Segments(e: string): nat {
    |SplitOn(e, '.')|
  }

  /** `len(x)`: the second sort key of the extension priority. */
  function Length(e: string): nat {
    |e|
  }

  /**
    The order in which `parse_wing_info` tries the extensions: sorted by descending length,
    then (stably) by descending number of dot-separated segments.
   */
  function Prioritized(extensions: seq<string>): seq<string> {
    StableSort.Sort(StableSort.Sort(extensions, Length), Segments)
  }

  /** The `for ... break / else` search: the first candidate that is a suffix of `name`. */
  function FirstSuffix(name: string, candidates: seq<string>): (r: Option<string>)
    ensures r.None? <==> forall i :: 0 <= i < |candidates| ==> !EndsWith(name, candidates[i])
    ensures r.Some? ==> r.value in candidates && EndsWith(name, r.value)
    ensures r.Some? ==> exists i :: (0 <= i < |candidates| && candidates[i] == r.value
      && forall j :: 0 <= j < i ==> !EndsWith(name, candidates[j]))
  {
    if candidates == [] then None
    else if EndsWith(name, candidates[0]) then Some(candidates[0])
    else
      var r := FirstSuffix(name, candidates[1..]);
      if r.Some? then
        var i :| 0 <= i < |candidates| - 1 && candidates[1..][i] == r.value
          && forall j :: 0 <= j < i ==> !EndsWith(name, candidates[1..][j]);
        assert forall j :: 1 <= j < i + 1 ==> candidates[j] == candidates[1..][j - 1];
        assert candidates[i + 1] == r.value;
        r
      else r
  }

  /** `dataset_catalog_name[: -len(valid_extension)]`; for an empty extension the slice `[:-0]` is empty. */
  function Cleaned(name: string, extension: string): (cleaned: string)
    requires EndsWith(name, extension)
    ensures extension != [] ==> cleaned + extension == name
  {
    if extension == [] then [] else name[..|name| - |extension|]
  }

  /** The record built once `extension` has been chosen for `name`. */
  function SplitName(name: string, extension: string): WingInfo
    requires EndsWith(name, extension)
  {
    var cleaned := Cleaned(name, extension);
    var stem := PosixPath.Basename(cleaned);
    WingInfo(PosixPath.Dirname(cleaned), stem, extension, stem + extension)
  }

  /**
    `parse_wing_info(dataset_catalog_name, valid_extensions, namespaces)`, with the extensions in
    the order the caller's iterable yields them. The namespaces are accepted and not used.
   */
  function ParseWingInfo(name: string, extensions: seq<string>, namespaces: seq<string>): WingInfo {
    match FirstSuffix(name, Prioritized(extensions))
    case None => Sentinel
    case Some(e) => SplitName(name, e)
  }

  // ---------------------------------------------------------------------------
  // Reference definition: the longest registered suffix, over the set of extensions.

  /** The longest extension in `extensions` of length at most `k` that ends `name`. */
  function LongestSuffixUpTo(name: string, extensions: set<string>, k: nat): (r: Option<string>)
    requires k <= |name|
    ensures r.None? <==> forall e :: e in extensions && |e| <= k ==> !EndsWith(name, e)
    ensures r.Some? ==> r.value in extensions && EndsWith(name, r.value) && |r.value| <= k
    ensures r.Some? ==> forall e :: e in extensions && |e| <= k && EndsWith(name, e) ==> |e| <= |r.value|
  {
    var candidate := name[|name| - k..];
    assert EndsWith(name, candidate);
    if candidate in extensions then Some(candidate)
    else if k == 0 then None
    else LongestSuffixUpTo(name, extensions, k - 1)
  }

  /** The longest extension in `extensions` that ends `name`, if any. */
  function LongestSuffix(name: string, extensions: set<string>): (r: Option<string>)
    ensures r.None? <==> forall e :: e in extensions ==> !EndsWith(name, e)
    ensures r.Some? ==> r.value in extensions && EndsWith(name, r.value)
    ensures r.Some? ==> forall e :: e in extensions && EndsWith(name, e) ==> |e| <= |r.value|
  {
    LongestSuffixUpTo(name, extensions, |name|)
  }

  /** Parsing by the longest registered suffix; equal to `ParseWingInfo` on every ordering (ParseIsLongestMatch). */
  function ParseLongest(name: string, extensions: set<string>): (w: WingInfo)
    ensures w == Sentinel <==> forall e :: e in extensions && e != [] ==> !EndsWith(name, e)
    ensures w != Sentinel ==> w.extension in extensions && w.extension != [] && EndsWith(name, w.extension)
  {
    match LongestSuffix(name, extensions)
    case None => Sentinel
    case Some(e) =>
      var w := SplitName(name, e);
      if e == [] then
        EmptyExtensionGivesSentinel(name);
        w
      else
        assert w.extension == e;
        w
  }

  /** The empty extension, which ends every name, produces the all-empty record (the `[:-0]` slice is empty). */
  lemma EmptyExtensionGivesSentinel(name: string)
    ensures EndsWith(name, []) && SplitName(name, []) == Sentinel
  {
    assert name[|name|..] == [];
    assert PosixPath.SplitPoint([]) == 0;
  }

  // ---------------------------------------------------------------------------
  // Properties

  lemma {:induction false} CountCharAppend(a: string, b: string, c: char)
    ensures CountChar(a + b, c) == CountChar(a, c) + CountChar(b, c)
  {
    if a == [] {
      assert a + b == b;
    } else {
      assert (a + b)[1..] == a[1..] + b;
      CountCharAppend(a[1..], b, c);
    }
  }

  /** Of two extensions that both end the same name, the longer one never has fewer segments. */
  lemma LongerSuffixHasNoFewerSegments(name: string, e: string, f: string)
    requires EndsWith(name, e) && EndsWith(name, f)
    ensures |e| <= |f| ==> Segments(e) <= Segments(f)
  {
    if |e| <= |f| {
      assert f == f[..|f| - |e|] + e;
      CountCharAppend(f[..|f| - |e|], e, '.');
    }
  }

  /** The first suffix in priority order is a longest suffix among the candidates. */
  lemma {:induction false} FirstSuffixIsLongest(name: string, candidates: seq<string>)
    requires StableSort.SortedThenBy(candidates, Segments, Length)
    ensures FirstSuffix(name, candidates).Some? ==>
      forall i :: 0 <= i < |candidates| && EndsWith(name, candidates[i]) ==>
        |candidates[i]| <= |FirstSuffix(name, candidates).value|
  {
    if candidates != [] {
      var e := candidates[0];
      if EndsWith(name, e) {
        forall i | 0 <= i < |candidates| && EndsWith(name, candidates[i])
          ensures |candidates[i]| <= |e|
        {
          if i > 0 {
            LongerSuffixHasNoFewerSegments(name, e, candidates[i]);
            assert Segments(e) > Segments(candidates[i])
              || (Segments(e) == Segments(candidates[i]) && Length(e) >= Length(candidates[i]));
          }
        }
      } else {
        var tail := candidates[1..];
        assert StableSort.SortedThenBy(tail, Segments, Length) by {
          forall i, j | 0 <= i < j < |tail|
            ensures Segments(tail[i]) > Segments(tail[j])
              || (Segments(tail[i]) == Segments(tail[j]) && Length(tail[i]) >= Length(tail[j]))
          {
            assert tail[i] == candidates[i + 1] && tail[j] == candidates[j + 1];
          }
        }
        FirstSuffixIsLongest(name, tail);
        forall i | 1 <= i < |candidates|
          ensures candidates[i] == tail[i - 1]
        {
        }
      }
    }
  }

  /** The priority order is descending segment count, then descending length, and holds the same extensions. */
  lemma PrioritizedOrder(extensions: seq<string>)
    ensures multiset(Prioritized(extensions)) == multiset(extensions)
    ensures StableSort.SortedThenBy(Prioritized(extensions), Segments, Length)
  {
    StableSort.SortIsStable(StableSort.Sort(extensions, Length), Segments, Length);
  }

  /** A non-empty registered extension that ends the name and that no longer one beats is the one the parse splits at. */
  lemma ParseByLongest(name: string, extensions: set<string>, e: string)
    requires e in extensions && e != [] && EndsWith(name, e)
    requires forall f :: f in extensions && EndsWith(name, f) ==> |f| <= |e|
    ensures ParseLongest(name, extensions) == SplitName(name, e)
  {
    var longest := LongestSuffix(name, extensions);
    assert longest.Some? && |longest.value| == |e|;
    assert longest.value == name[|name| - |e|..] == e;
  }

  /** Splitting `directory/stem + extension` at `extension` gives back its three parts. */
  lemma SplitNameAt(directory: string, stem: string, extension: string)
    requires directory != [] && !PosixPath.EndsWithSep(directory)
    requires forall j :: 0 <= j < |stem| ==> stem[j] != '/'
    requires extension != []
    ensures EndsWith(directory + "/" + stem + extension, extension)
    ensures SplitName(directory + "/" + stem + extension, extension)
      == WingInfo(directory, stem, extension, stem + extension)
  {
    var name := directory + "/" + stem + extension;
    assert name[|name| - |extension|..] == extension;
    assert Cleaned(name, extension) == directory + "/" + stem;
    PosixPath.SplitAtLastSep(directory, stem);
  }

  /**
    `parse_wing_info` picks the longest registered extension that ends the name, so its
    result is that of the reference parse on the set of extensions.
   */
  lemma ParseIsLongestMatch(name: string, extensions: seq<string>, namespaces: seq<string>)
    ensures ParseWingInfo(name, extensions, namespaces) == ParseLongest(name, set e | e in extensions)
  {
    var order := Prioritized(extensions);
    PrioritizedOrder(extensions);
    SameElements(order, extensions);
    FirstSuffixIsLongestSuffix(name, order, set e | e in extensions);
  }

  /** On a priority-ordered sequence, the first suffix found is the longest suffix in its set of elements. */
  lemma FirstSuffixIsLongestSuffix(name: string, order: seq<string>, exts: set<string>)
    requires StableSort.SortedThenBy(order, Segments, Length)
    requires forall e :: e in order <==> e in exts
    ensures FirstSuffix(name, order) == LongestSuffix(name, exts)
  {
    var first, longest := FirstSuffix(name, order), LongestSuffix(name, exts);
    if first.Some? {
      assert longest.Some? && |first.value| <= |longest.value|;
      FirstSuffixIsLongest(name, order);
      var i :| 0 <= i < |order| && order[i] == longest.value;
      assert |longest.value| <= |first.value|;
      assert first.value == name[|name| - |first.value|..] == longest.value;
    } else {
      forall e | e in exts ensures !EndsWith(name, e) {
        var i :| 0 <= i < |order| && order[i] == e;
      }
    }
  }

  lemma SameElements(xs: seq<string>, ys: seq<string>)
    requires multiset(xs) == multiset(ys)
    ensures forall e :: e in xs <==> e in ys
  {
    forall e ensures e in xs <==> e in ys {
      assert e in xs <==> e in multiset(xs);
      assert e in ys <==> e in multiset(ys);
    }
  }

  /**
    A name `directory/stem + extension` whose longest matching registered extension is
    `extension` parses into exactly those parts.
   */
  lemma ParseLongestSplitsAt(name: string, directory: string, stem: string, extension: string, basename: string,
                             extensions: set<string>)
    requires name == directory + "/" + stem + extension && basename == stem + extension
    requires directory != [] && !PosixPath.EndsWithSep(directory)
    requires forall j :: 0 <= j < |stem| ==> stem[j] != '/'
    requires extension != [] && extension in extensions
    requires forall f :: f in extensions && EndsWith(name, f) ==> |f| <= |extension|
    ensures ParseLongest(name, extensions) == WingInfo(directory, stem, extension, basename)
  {
    SplitNameAt(directory, stem, extension);
    ParseByLongest(name, extensions, extension);
  }

  /** The same for `parse_wing_info`, whatever the iteration order of the extensions. */
  lemma ParseSplitsAt(name: string, directory: string, stem: string, extension: string, basename: string,
                      extensions: seq<string>, namespaces: seq<string>)
    requires name == directory + "/" + stem + extension && basename == stem + extension
    requires directory != [] && !PosixPath.EndsWithSep(directory)
    requires forall j :: 0 <= j < |stem| ==> stem[j] != '/'
    requires extension != [] && extension in extensions
    requires forall f :: f in extensions && EndsWith(name, f) ==> |f| <= |extension|
    ensures ParseWingInfo(name, extensions, namespaces) == WingInfo(directory, stem, extension, basename)
  {
    ParseIsLongestMatch(name, extensions, namespaces);
    ParseLongestSplitsAt(name, directory, stem, extension, basename, set e | e in extensions);
  }

  /** The result does not depend on the order in which the extensions are iterated. */
  lemma ParseIgnoresOrder(name: string, xs: seq<string>, ys: seq<string>, namespaces: seq<string>)
    requires forall e :: e in xs <==> e in ys
    ensures ParseWingInfo(name, xs, namespaces) == ParseWingInfo(name, ys, namespaces)
  {
    var sx, sy := (set e | e in xs), (set e | e in ys);
    assert sx == sy by {
      assert forall e :: e in sx <==> e in sy;
    }
    ParseIsLongestMatch(name, xs, namespaces);
    ParseIsLongestMatch(name, ys, namespaces);
  }

  /** The result does not depend on the namespaces argument. */
  lemma ParseIgnoresNamespaces(name: string, extensions: seq<string>, ns1: seq<string>, ns2: seq<string>)
    ensures ParseWingInfo(name, extensions, ns1) == ParseWingInfo(name, extensions, ns2)
  {
  }

  /**
    What a parse returns: the sentinel exactly when no non-empty registered extension ends the
    name; otherwise the longest matching extension, a registered one, with `name` the last path
    segment of what precedes it, `directory` the part before that, and `basename == name + extension`.
   */
  lemma ParseMeaning(name: string, extensions: seq<string>, namespaces: seq<string>)
    ensures var w := ParseWingInfo(name, extensions, namespaces);
      && (w == Sentinel <==> forall i :: 0 <= i < |extensions| && extensions[i] != [] ==> !EndsWith(name, extensions[i]))
      && (w != Sentinel ==>
            && w.extension in extensions && w.extension != [] && EndsWith(name, w.extension)
            && (forall i :: 0 <= i < |extensions| && EndsWith(name, extensions[i]) ==> |extensions[i]| <= |w.extension|)
            && w.directory == PosixPath.Dirname(name[..|name| - |w.extension|])
            && w.name == PosixPath.Basename(name[..|name| - |w.extension|])
            && w.basename == w.name + w.extension)
  {
    ParseIsLongestMatch(name, extensions, namespaces);
    var w := ParseWingInfo(name, extensions, namespaces);
    if w != Sentinel {
      var longest := LongestSuffix(name, set e | e in extensions);
      assert longest.Some? && longest.value == w.extension;
    }
  }

  /**
    Joining the directory and the basename of a split gives back the name, for a name without
    a doubled '/' and a non-empty extension that does not start with '/'.
   */
  lemma SplitNameRoundTrip(name: string, extension: string)
    requires EndsWith(name, extension) && extension != []
    requires PosixPath.NoDoubleSep(name) && !PosixPath.StartsWithSep(extension)
    ensures var w := SplitName(name, extension);
      PosixPath.Join(w.directory, w.basename) == name
  {
    var cleaned := Cleaned(name, extension);
    assert PosixPath.NoDoubleSep(cleaned) by {
      forall j | 0 <= j < |cleaned| - 1 ensures !(cleaned[j] == '/' && cleaned[j + 1] == '/') {
        assert cleaned[j] == name[j] && cleaned[j + 1] == name[j + 1];
      }
    }
    assert !PosixPath.StartsWithSep(PosixPath.Basename(cleaned) + extension) by {
      var b := PosixPath.Basename(cleaned);
      if b != [] {
        assert b[0] != '/';
      }
    }
    PosixPath.JoinDirnameBasename(cleaned, extension);
  }

  /**
    Round trip: joining the directory and the basename gives back the parsed name, for names
    without a doubled '/' and extensions that do not start with '/'.
   */
  lemma ParseRoundTrip(name: string, extensions: seq<string>, namespaces: seq<string>)
    requires PosixPath.NoDoubleSep(name)
    requires forall i :: 0 <= i < |extensions| ==> !PosixPath.StartsWithSep(extensions[i])
    requires ParseWingInfo(name, extensions, namespaces) != Sentinel
    ensures var w := ParseWingInfo(name, extensions, namespaces);
      PosixPath.Join(w.directory, w.basename) == name
  {
    ParseMeaning(name, extensions, namespaces);
    var w := ParseWingInfo(name, extensions, namespaces);
    var e := FirstSuffix(name, Prioritized(extensions)).value;
    assert w == SplitName(name, e);
    SplitNameRoundTrip(name, e);
  }

  /**
    The parts of a relative name without a doubled '/' are relative too, and joining them
    gives the name back.
   */
  lemma ParseLongestRelativeParts(name: string, extensions: set<string>)
    requires !PosixPath.StartsWithSep(name) && PosixPath.NoDoubleSep(name)
    requires forall e :: e in extensions ==> !PosixPath.StartsWithSep(e)
    requires ParseLongest(name, extensions) != Sentinel
    ensures var w := ParseLongest(name, extensions);
      && !PosixPath.StartsWithSep(w.directory) && !PosixPath.StartsWithSep(w.basename)
      && PosixPath.Join(w.directory, w.basename) == name
  {
    var w := ParseLongest(name, extensions);
    var e := LongestSuffix(name, extensions).value;
    assert w == SplitName(name, e) && e == w.extension && e != [];
    SplitNameRoundTrip(name, e);
    var cleaned := Cleaned(name, e);
    assert !PosixPath.StartsWithSep(w.directory) by {
      if w.directory != [] {
        assert w.directory[0] == cleaned[0] == name[0];
      }
    }
    assert !PosixPath.StartsWithSep(w.basename) by {
      var stem := PosixPath.Basename(cleaned);
      if stem != [] {
        assert stem[0] != '/';
      }
    }
  }
}
