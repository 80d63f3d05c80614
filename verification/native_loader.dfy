/**
 * The Python side's native loader: reading a `vix_str` back as text, the
 * platform's file name for the library, the list of directories to search
 * (from `VIX_LIB_PATH`, then the package's own directory), the ordered
 * fallback that loads the first candidate it can, and the module-wide
 * memoised handle.
 *
 * The file system and the dynamic loader are oracles of a `Host`: whether
 * a path exists, and what opening a library by path or by name gives.
 */
module NativeLoader {
  import opened TextBytes
  import opened VixTypes
  import opened VixStatus
  import opened FfiGlue

  // ---------------------------------------------------------------------
  // Strings coming back from the library

  /**
   * What ctypes reads from a `c_char_p` field: `None` for a null pointer,
   * otherwise the bytes before the first NUL.
   */
  function CharPtrValue(p: CharPtr): (r: Option<seq<byte>>)
    requires p.Static? ==> 0 in p.bytes
    ensures r.None? <==> p.Null?
    ensures r.Some? ==> |r.value| < |p.bytes| && 0 !in r.value && r.value == p.bytes[..|r.value|] && p.bytes[|r.value|] == 0
  {
    if p.Null? then None else Some(p.bytes[..StrLen(p.bytes)])
  }

  /** A view that ends at or before its string's first NUL, as every view the library hands out does. */
  predicate Readable(s: VixStr): (b: bool)
    ensures b ==> InBounds(s)
  {
    s.ptr.Static? ==> s.len <= |s.ptr.bytes| && 0 !in s.ptr.bytes[..s.len] && 0 in s.ptr.bytes[s.len..]
  }

  /**
   * `_decode_vix_str`: the empty string when the pointer's value is false
   * (null, or an empty C string) or the length is 0; otherwise the first
   * `len` bytes of that value, decoded with replacement.
   * `CharPtrValueOfReadable` shows that for a readable view those are the
   * viewed bytes.
   */
  function DecodeVixStr(s: VixStr): (r: string)
    requires Readable(s)
    ensures InBounds(s) && r == DecodeReplace(ViewBytes(s))
    ensures |r| == s.len || s.ptr.Null?
  {
    if s.ptr.Null? || s.ptr.bytes[0] == 0 || s.len == 0 then "" else DecodeReplace(s.ptr.bytes[..s.len])
  }

  /**
   * For a readable view, the pointer's value as ctypes reads it is empty
   * exactly when its first byte is NUL, and it starts with the viewed bytes.
   */
  lemma CharPtrValueOfReadable(s: VixStr)
    requires Readable(s) && s.ptr.Static?
    ensures 0 in s.ptr.bytes
    ensures var v := CharPtrValue(s.ptr).value;
      && (v == [] <==> s.ptr.bytes[0] == 0)
      && s.len <= |v| && v[..s.len] == ViewBytes(s)
  {
    var b := s.ptr.bytes;
    assert b[s.len..] <= b[s.len..];
    var j :| 0 <= j < |b[s.len..]| && b[s.len..][j] == 0;
    assert b[s.len + j] == 0;
  }

  /** A view of a string literal reads back as the literal; the OK status has no message. */
  lemma DecodeLiteral(text: string)
    requires IsAscii(text) && NoNul(text)
    ensures Readable(MakeStrLit(text)) && DecodeVixStr(MakeStrLit(text)) == text
    ensures DecodeVixStr(StatusOk().message) == ""
  {
    var s := MakeStrLit(text);
    var b := Literal(text);
    assert b[..|text|] == AsciiBytes(text) && b[|text|..] == [0];
    assert 0 !in AsciiBytes(text) by {
      forall i | 0 <= i < |text|
        ensures AsciiBytes(text)[i] != 0
      {
        assert text[i] != '\0';
      }
    }
    if text != "" {
      var r := DecodeVixStr(s);
      assert forall i | 0 <= i < |text| :: r[i] == text[i] by {
        forall i | 0 <= i < |text|
          ensures r[i] == text[i]
        {
          assert ViewBytes(s)[i] as int == text[i] as int;
        }
      }
    }
  }

  /** A status the library sets reads back as its message, and the OK status as nothing. */
  lemma ErrorStatusReadsBack(code: StatusCode, m: Message)
    ensures Readable(ErrorStatus(code, m).message)
    ensures DecodeVixStr(ErrorStatus(code, m).message) == m.Text()
    ensures Readable(StatusOk().message) && DecodeVixStr(StatusOk().message) == ""
  {
    MessageIsPlain(m);
    DecodeLiteral(m.Text());
  }

  // ---------------------------------------------------------------------
  // The library's file name

  /** `sys.platform.startswith("win")`. */
  predicate IsWindows(platform: string): (b: bool)
    ensures b <==> "win" <= platform
    ensures b ==> platform != "darwin"
  {
    assert "darwin"[..3] == "dar";
    |platform| >= 3 && platform[..3] == "win"
  }

  /** `_default_lib_filename`: `base64.dll` on Windows, `libbase64.dylib` on macOS, `libbase64.so` elsewhere. */
  function DefaultLibFilename(platform: string): (r: string)
    ensures IsWindows(platform) <==> r == "base64.dll"
    ensures !IsWindows(platform) && platform == "darwin" <==> r == "libbase64.dylib"
    ensures !IsWindows(platform) && platform != "darwin" <==> r == "libbase64.so"
  {
    var name := "base64";
    if IsWindows(platform) then name + ".dll"
    else if platform == "darwin" then "lib" + name + ".dylib"
    else "lib" + name + ".so"
  }

  // ---------------------------------------------------------------------
  // Splitting and stripping `VIX_LIB_PATH`

  /** The separator of `VIX_LIB_PATH`: `;` on Windows, `:` elsewhere. */
  function PathListSep(platform: string): (c: char)
    ensures c == ';' <==> IsWindows(platform)
    ensures c == ';' || c == ':'
    ensures !IsSpace(c)
  {
    if IsWindows(platform) then ';' else ':'
  }

  /** `s.split(sep)`: the pieces between separators, empty ones included. */
  function Split(s: string, sep: char): (parts: seq<string>)
    ensures |parts| >= 1
    ensures forall k | 0 <= k < |parts| :: sep !in parts[k]
  {
    if s == [] then [""]
    else
      var rest := Split(s[1..], sep);
      if s[0] == sep then [""] + rest
      else
        assert forall k | 1 <= k < |rest| :: rest[1..][k - 1] == rest[k];
        [[s[0]] + rest[0]] + rest[1..]
  }

  /** `sep.join(parts)`. */
  function JoinWith(parts: seq<string>, sep: string): (r: string)
    ensures |parts| >= 1 ==> parts[0] <= r
    ensures |parts| >= 1 ==> |r| >= |parts[0]| + (|parts| - 1) * |sep|
  {
    if |parts| == 0 then ""
    else if |parts| == 1 then parts[0]
    else parts[0] + sep + JoinWith(parts[1..], sep)
  }

  /** Joining the pieces of a split gives back the text. */
  lemma {:induction false} JoinSplit(s: string, sep: char)
    ensures JoinWith(Split(s, sep), [sep]) == s
  {
    if s != [] {
      var rest := Split(s[1..], sep);
      JoinSplit(s[1..], sep);
      if s[0] == sep {
        assert s == [sep] + s[1..];
      } else if |rest| == 1 {
        assert s == [s[0]] + s[1..];
      } else {
        var tail := JoinWith(rest[1..], [sep]);
        assert JoinWith(rest, [sep]) == rest[0] + [sep] + tail;
        assert ([s[0]] + rest[0]) + [sep] + tail == [s[0]] + (rest[0] + [sep] + tail);
        assert s == [s[0]] + s[1..];
      }
    }
  }

  /** A piece without the separator, put in front of one, splits off as a piece of its own. */
  lemma {:induction false} SplitAfterPiece(a: string, b: string, sep: char)
    requires sep !in a
    ensures Split(a + [sep] + b, sep) == [a] + Split(b, sep)
  {
    if a != [] {
      SplitAfterPiece(a[1..], b, sep);
      var s := a + [sep] + b;
      assert s[0] == a[0] && s[1..] == a[1..] + [sep] + b;
      var rest := Split(s[1..], sep);
      assert rest[0] == a[1..] && rest[1..] == Split(b, sep);
      assert [s[0]] + rest[0] == a;
    } else {
      assert a + [sep] + b == [sep] + b;
      assert ([sep] + b)[1..] == b;
    }
  }

  /** Text without the separator splits into itself alone. */
  lemma {:induction false} SplitNoSep(a: string, sep: char)
    requires sep !in a
    ensures Split(a, sep) == [a]
  {
    if a != [] {
      SplitNoSep(a[1..], sep);
      assert a == [a[0]] + a[1..];
    }
  }

  /** Splitting a join of separator-free pieces gives back the pieces. */
  lemma {:induction false} SplitJoin(parts: seq<string>, sep: char)
    requires |parts| >= 1
    requires forall k | 0 <= k < |parts| :: sep !in parts[k]
    ensures Split(JoinWith(parts, [sep]), sep) == parts
  {
    if |parts| == 1 {
      SplitNoSep(parts[0], sep);
    } else {
      SplitJoin(parts[1..], sep);
      SplitAfterPiece(parts[0], JoinWith(parts[1..], [sep]), sep);
      assert parts == [parts[0]] + parts[1..];
    }
  }

  /** `str.isspace` for one character: the characters Python strips by default. */
  predicate IsSpace(c: char): (b: bool)
    ensures '!' <= c <= '~' ==> !b
    ensures c == ' ' || c == '\t' || c == '\n' || c == '\r' ==> b
  {
    || c == ' ' || '\t' <= c <= '\r' || '\U{1C}' <= c <= '\U{1F}'
    || c == '\U{85}' || c == '\U{A0}' || c == '\U{1680}' || '\U{2000}' <= c <= '\U{200A}'
    || c == '\U{2028}' || c == '\U{2029}' || c == '\U{202F}' || c == '\U{205F}' || c == '\U{3000}'
  }

  /** The first position at or after `i` that holds no whitespace (or the end). */
  function SkipSpace(s: string, i: nat): (j: nat)
    requires i <= |s|
    ensures i <= j <= |s|
    ensures j == |s| || !IsSpace(s[j])
    decreases |s| - i
  {
    if i < |s| && IsSpace(s[i]) then SkipSpace(s, i + 1) else i
  }

  /** Skipping passes over whitespace only. */
  lemma {:induction false} SkipSpaceOverSpace(s: string, i: nat)
    requires i <= |s|
    ensures forall k | i <= k < SkipSpace(s, i) :: IsSpace(s[k])
    decreases |s| - i
  {
    if i < |s| && IsSpace(s[i]) {
      SkipSpaceOverSpace(s, i + 1);
    }
  }

  /** The end of `s[lo..j]` once trailing whitespace is dropped. */
  function BackSpace(s: string, lo: nat, j: nat): (e: nat)
    requires lo <= j <= |s|
    ensures lo <= e <= j
    ensures e == lo || !IsSpace(s[e - 1])
  {
    if j > lo && IsSpace(s[j - 1]) then BackSpace(s, lo, j - 1) else j
  }

  /** Dropping from the back passes over whitespace only. */
  lemma {:induction false} BackSpaceOverSpace(s: string, lo: nat, j: nat)
    requires lo <= j <= |s|
    ensures forall k | BackSpace(s, lo, j) <= k < j :: IsSpace(s[k])
  {
    if j > lo && IsSpace(s[j - 1]) {
      BackSpaceOverSpace(s, lo, j - 1);
    }
  }

  /** `s.strip()`: drop leading and trailing whitespace; what is left starts and ends with none. */
  function Strip(s: string): (r: string)
    ensures |r| <= |s|
    ensures r == [] || (!IsSpace(r[0]) && !IsSpace(r[|r| - 1]))
  {
    var i := SkipSpace(s, 0);
    s[i..BackSpace(s, i, |s|)]
  }

  /** Only whitespace lies outside `s[i..j]`. */
  predicate SpaceOutside(s: string, i: nat, j: nat)
    requires i <= j <= |s|
  {
    && (forall k | 0 <= k < i :: IsSpace(s[k]))
    && (forall k | j <= k < |s| :: IsSpace(s[k]))
  }

  /** `strip` keeps a contiguous piece of `s` and drops only whitespace on either side of it. */
  lemma StripIsSlice(s: string)
    ensures exists i, j | 0 <= i <= j <= |s| :: Strip(s) == s[i..j] && SpaceOutside(s, i, j)
  {
    var i := SkipSpace(s, 0);
    var j := BackSpace(s, i, |s|);
    SkipSpaceOverSpace(s, 0);
    BackSpaceOverSpace(s, i, |s|);
    assert SpaceOutside(s, i, j);
  }

  /** Text strips to nothing exactly when it is all whitespace. */
  lemma StripBlank(s: string)
    ensures Strip(s) == "" <==> forall k | 0 <= k < |s| :: IsSpace(s[k])
  {
    var i := SkipSpace(s, 0);
    SkipSpaceOverSpace(s, 0);
    BackSpaceOverSpace(s, i, |s|);
  }

  /** Text that neither starts nor ends with whitespace is its own strip. */
  lemma StripFixed(s: string)
    requires s == [] || (!IsSpace(s[0]) && !IsSpace(s[|s| - 1]))
    ensures Strip(s) == s
  {
    assert SkipSpace(s, 0) == 0;
    assert BackSpace(s, 0, |s|) == |s|;
  }

  /** Stripping twice strips no more than once. */
  lemma StripIdempotent(s: string)
    ensures Strip(Strip(s)) == Strip(s)
  {
    StripFixed(Strip(s));
  }

  /** A piece as the loop keeps it: non-empty and already stripped. */
  predicate Clean(d: string)
  {
    d != "" && Strip(d) == d
  }

  /** One piece as the loop keeps it: stripped, or dropped when nothing is left. */
  function KeepOne(part: string): (r: seq<string>)
    ensures |r| <= 1
    ensures r == [] <==> forall k | 0 <= k < |part| :: IsSpace(part[k])
    ensures r != [] ==> r[0] != "" && r[0] == Strip(part)
  {
    StripBlank(part);
    var p := Strip(part);
    if p != "" then [p] else []
  }

  /** The stripped, non-empty pieces, in their original order: at most one per piece. */
  function KeptParts(parts: seq<string>): (r: seq<string>)
    ensures |r| <= |parts|
  {
    if parts == [] then [] else KeepOne(parts[0]) + KeptParts(parts[1..])
  }

  /** Every kept piece is non-empty and already stripped. */
  lemma {:induction false} KeptPartsStripped(parts: seq<string>)
    ensures forall k | 0 <= k < |KeptParts(parts)| :: Clean(KeptParts(parts)[k])
  {
    if parts != [] {
      KeptPartsStripped(parts[1..]);
      StripIdempotent(parts[0]);
      var h, t := KeepOne(parts[0]), KeptParts(parts[1..]);
      assert KeptParts(parts) == h + t;
      forall k | 0 <= k < |h + t|
        ensures Clean((h + t)[k])
      {
        if k < |h| {
          assert (h + t)[k] == h[0] == Strip(parts[0]);
        } else {
          assert (h + t)[k] == t[k - |h|];
        }
      }
    }
  }

  /** Keeping pieces works piece by piece, so the kept pieces keep their order. */
  lemma {:induction false} KeptPartsAppend(a: seq<string>, b: seq<string>)
    ensures KeptParts(a + b) == KeptParts(a) + KeptParts(b)
  {
    if a == [] {
      assert a + b == b;
    } else {
      var ab := a + b;
      assert ab[0] == a[0] && ab[1..] == a[1..] + b;
      KeptPartsAppend(a[1..], b);
      var h, x, y := KeepOne(a[0]), KeptParts(a[1..]), KeptParts(b);
      assert KeptParts(ab) == h + (x + y);
      assert KeptParts(a) == h + x;
      ConcatAssoc(h, x, y);
    }
  }

  /** When every piece is non-empty and already stripped, all of them are kept, as they are. */
  lemma {:induction false} KeptPartsFixed(parts: seq<string>)
    requires forall k | 0 <= k < |parts| :: Clean(parts[k])
    ensures KeptParts(parts) == parts
  {
    if parts != [] {
      KeptPartsFixed(parts[1..]);
      assert parts == [parts[0]] + parts[1..];
    }
  }

  // ---------------------------------------------------------------------
  // Where to look

  /** `os.environ.get("VIX_LIB_PATH", "")`. */
  function EnvValue(vixLibPath: Option<string>): (r: string)
    ensures vixLibPath.Some? ==> r == vixLibPath.value
    ensures r == "" <==> vixLibPath.None? || vixLibPath.value == ""
  {
    if vixLibPath.Some? then vixLibPath.value else ""
  }

  /**
   * `_candidate_paths` as a value: the non-blank entries of the path list,
   * stripped, in order, then the package's own directory, which always comes
   * last; an empty list gives the package's directory alone.
   */
  function Candidates(platform: string, env: string, moduleDir: string): (r: seq<string>)
    ensures |r| >= 1 && r[|r| - 1] == moduleDir
    ensures env == "" ==> r == [moduleDir]
  {
    (if env != "" then KeptParts(Split(env, PathListSep(platform))) else []) + [moduleDir]
  }

  /** Every entry before the package's directory is non-empty and stripped. */
  lemma CandidatesShape(platform: string, env: string, moduleDir: string)
    ensures forall k | 0 <= k < |Candidates(platform, env, moduleDir)| - 1 :: Clean(Candidates(platform, env, moduleDir)[k])
  {
    var r := Candidates(platform, env, moduleDir);
    if env != "" {
      var kept := KeptParts(Split(env, PathListSep(platform)));
      KeptPartsStripped(Split(env, PathListSep(platform)));
      assert r == kept + [moduleDir];
      assert forall k | 0 <= k < |r| - 1 :: r[k] == kept[k];
    }
  }

  /** A path list written as separator-joined clean entries is searched entry by entry, in that order. */
  lemma CandidatesOfJoinedList(platform: string, dirs: seq<string>, moduleDir: string)
    requires forall k | 0 <= k < |dirs| :: Clean(dirs[k]) && PathListSep(platform) !in dirs[k]
    ensures Candidates(platform, JoinWith(dirs, [PathListSep(platform)]), moduleDir) == dirs + [moduleDir]
  {
    if dirs != [] {
      var sep := PathListSep(platform);
      var env := JoinWith(dirs, [sep]);
      SplitJoin(dirs, sep);
      KeptPartsFixed(dirs);
    }
  }

  /** A single piece keeps what `KeepOne` keeps. */
  lemma KeptPartsSingle(part: string)
    ensures KeptParts([part]) == KeepOne(part)
  {
    var one := [part];
    assert one[1..] == [];
    var h := KeepOne(part);
    assert KeptParts(one) == h + [];
    assert h + [] == h;
  }

  /** Keeping one more piece appends what that piece keeps. */
  lemma KeptPartsSnoc(parts: seq<string>, i: nat)
    requires i < |parts|
    ensures KeptParts(parts[..i + 1]) == KeptParts(parts[..i]) + KeepOne(parts[i])
  {
    KeptPartsAppend(parts[..i], [parts[i]]);
    assert parts[..i + 1] == parts[..i] + [parts[i]];
    KeptPartsSingle(parts[i]);
  }

  /** `_candidate_paths`: the loop that builds the list of directories. */
  method CandidatePaths(platform: string, env: string, moduleDir: string) returns (out: seq<string>)
    ensures out == Candidates(platform, env, moduleDir)
  {
    out := [];
    if env != "" {
      var sep := PathListSep(platform);
      var parts := Split(env, sep);
      for i := 0 to |parts|
        invariant out == KeptParts(parts[..i])
      {
        KeptPartsSnoc(parts, i);
        var part := Strip(parts[i]);
        if part != "" {
          out := out + [part];
        }
      }
      assert parts[..|parts|] == parts;
    }
    out := out + [moduleDir];
  }

  // ---------------------------------------------------------------------
  // Loading

  /** A loaded library. */
  datatype Handle = Handle(id: nat)

  /** What `ctypes.CDLL(path)` does: return a library, or raise with a reason. */
  datatype OpenResult = Opened(handle: Handle) | Failed(reason: string)

  /**
   * The process's view of the outside world: the platform, the path list
   * variable (absent or set), the package's directory, which files exist,
   * and what the dynamic loader does with a path or a bare name.
   */
  datatype Host = Host(platform: string, vixLibPath: Option<string>, moduleDir: string,
                       pathExists: string -> bool, open: string -> OpenResult)

  /** `base / fname` rendered as text, with the platform's directory separator. */
  function CandidateFile(platform: string, base: string, fname: string): (r: string)
    ensures |r| == |base| + 1 + |fname| && r[..|base|] == base && r[|base| + 1..] == fname
    ensures r[|base|] == (if IsWindows(platform) then '\\' else '/')
  {
    base + (if IsWindows(platform) then "\\" else "/") + fname
  }

  /** The message recorded for a candidate that exists but does not load. */
  function LoadFailure(cand: string, reason: string): string
  {
    "failed to load: " + cand + ": " + reason
  }

  /** The message recorded when loading by bare name fails. */
  function NameFailure(fname: string, reason: string): string
  {
    "failed to load by name: " + fname + ": " + reason
  }

  /** The result of trying candidates in order: a library, or the messages of every failed attempt. */
  datatype Search = Found(handle: Handle) | NotFound(errors: seq<string>)

  /** Earlier failures put in front of a search's own. */
  function WithErrors(errs: seq<string>, r: Search): Search
  {
    if r.Found? then r else NotFound(errs + r.errors)
  }

  /** The loop of `load_library` over the directories, as a value. */
  function SearchDirs(h: Host, dirs: seq<string>, fname: string): (r: Search)
    ensures r.NotFound? ==> |r.errors| <= |dirs|
  {
    if dirs == [] then NotFound([])
    else
      var cand := CandidateFile(h.platform, dirs[0], fname);
      if !h.pathExists(cand) then SearchDirs(h, dirs[1..], fname)
      else if h.open(cand).Opened? then Found(h.open(cand).handle)
      else WithErrors([LoadFailure(cand, h.open(cand).reason)], SearchDirs(h, dirs[1..], fname))
  }

  /** What loading the library ends in: a library, or `RuntimeError` with its message. */
  datatype LoadOutcome = Loaded(handle: Handle) | LoadError(message: string)

  /** The heading of the error raised when nothing loads. */
  const CouldNotLoad := "could not load native library\n"

  /** `load_library` as a value. */
  function LoadOutcomeOf(h: Host): (r: LoadOutcome)
    ensures r.LoadError? ==> CouldNotLoad <= r.message && h.open(DefaultLibFilename(h.platform)).Failed?
  {
    var fname := DefaultLibFilename(h.platform);
    var r := SearchDirs(h, Candidates(h.platform, EnvValue(h.vixLibPath), h.moduleDir), fname);
    if r.Found? then Loaded(r.handle)
    else if h.open(fname).Opened? then Loaded(h.open(fname).handle)
    else LoadError(CouldNotLoad + JoinWith(r.errors + [NameFailure(fname, h.open(fname).reason)], "\n"))
  }

  /** The paths of the candidates that exist, in order: the ones the loader tries. */
  function Attempted(h: Host, dirs: seq<string>, fname: string): (r: seq<string>)
    ensures |r| <= |dirs|
  {
    if dirs == [] then []
    else
      var cand := CandidateFile(h.platform, dirs[0], fname);
      (if h.pathExists(cand) then [cand] else []) + Attempted(h, dirs[1..], fname)
  }

  /**
   * The search returns the library of the first candidate that exists and
   * loads; candidates before it either do not exist or fail to load.
   */
  lemma {:induction false} SearchFindsFirst(h: Host, dirs: seq<string>, fname: string)
    requires SearchDirs(h, dirs, fname).Found?
    ensures exists i | 0 <= i < |dirs| ::
      && h.pathExists(CandidateFile(h.platform, dirs[i], fname))
      && h.open(CandidateFile(h.platform, dirs[i], fname)) == Opened(SearchDirs(h, dirs, fname).handle)
      && forall j | 0 <= j < i :: h.pathExists(CandidateFile(h.platform, dirs[j], fname))
                                  ==> h.open(CandidateFile(h.platform, dirs[j], fname)).Failed?
  {
    var cand := CandidateFile(h.platform, dirs[0], fname);
    if h.pathExists(cand) && h.open(cand).Opened? {
      assert h.open(CandidateFile(h.platform, dirs[0], fname)) == Opened(SearchDirs(h, dirs, fname).handle);
    } else {
      SearchFindsFirst(h, dirs[1..], fname);
      var i :| 0 <= i < |dirs[1..]|
        && h.pathExists(CandidateFile(h.platform, dirs[1..][i], fname))
        && h.open(CandidateFile(h.platform, dirs[1..][i], fname)) == Opened(SearchDirs(h, dirs[1..], fname).handle)
        && forall j | 0 <= j < i :: h.pathExists(CandidateFile(h.platform, dirs[1..][j], fname))
                                    ==> h.open(CandidateFile(h.platform, dirs[1..][j], fname)).Failed?;
      assert dirs[i + 1] == dirs[1..][i];
      forall j | 0 <= j < i + 1
        ensures h.pathExists(CandidateFile(h.platform, dirs[j], fname))
                ==> h.open(CandidateFile(h.platform, dirs[j], fname)).Failed?
      {
        if j > 0 {
          assert dirs[j] == dirs[1..][j - 1];
        }
      }
    }
  }

  /**
   * When nothing is found, every existing candidate failed to load, and the
   * search reports one message per attempt, in the order of the attempts,
   * each naming the path and the loader's reason.
   */
  lemma {:induction false} SearchReportsEach(h: Host, dirs: seq<string>, fname: string)
    requires SearchDirs(h, dirs, fname).NotFound?
    ensures forall i | 0 <= i < |dirs| :: h.pathExists(CandidateFile(h.platform, dirs[i], fname))
                                          ==> h.open(CandidateFile(h.platform, dirs[i], fname)).Failed?
    ensures var errs, tried := SearchDirs(h, dirs, fname).errors, Attempted(h, dirs, fname);
      && |errs| == |tried|
      && forall k | 0 <= k < |tried| :: h.open(tried[k]).Failed? && errs[k] == LoadFailure(tried[k], h.open(tried[k]).reason)
  {
    if dirs != [] {
      SearchReportsEach(h, dirs[1..], fname);
      forall i | 0 <= i < |dirs| && h.pathExists(CandidateFile(h.platform, dirs[i], fname))
        ensures h.open(CandidateFile(h.platform, dirs[i], fname)).Failed?
      {
        if i > 0 {
          assert dirs[i] == dirs[1..][i - 1];
        }
      }
      var cand := CandidateFile(h.platform, dirs[0], fname);
      var errs, tried := SearchDirs(h, dirs, fname).errors, Attempted(h, dirs, fname);
      var errs', tried' := SearchDirs(h, dirs[1..], fname).errors, Attempted(h, dirs[1..], fname);
      if h.pathExists(cand) {
        assert errs == [LoadFailure(cand, h.open(cand).reason)] + errs';
        assert tried == [cand] + tried';
        forall k | 1 <= k < |tried|
          ensures h.open(tried[k]).Failed? && errs[k] == LoadFailure(tried[k], h.open(tried[k]).reason)
        {
          assert tried[k] == tried'[k - 1] && errs[k] == errs'[k - 1];
        }
      } else {
        assert errs == errs' && tried == tried';
      }
    }
  }

  /** Candidates that do not exist are skipped without a message. */
  lemma NoFilesNoMessages(h: Host, dirs: seq<string>, fname: string)
    requires forall i | 0 <= i < |dirs| :: !h.pathExists(CandidateFile(h.platform, dirs[i], fname))
    ensures SearchDirs(h, dirs, fname) == NotFound([])
  {
    if dirs != [] {
      assert forall i | 0 <= i < |dirs[1..]| :: dirs[1..][i] == dirs[i + 1];
      NoFilesNoMessages(h, dirs[1..], fname);
    }
  }

  /** One line per failed path, in order, then the line for the bare name. */
  predicate ListsFailures(h: Host, lines: seq<string>, tried: seq<string>, fname: string)
  {
    && |lines| == |tried| + 1
    && (forall k | 0 <= k < |tried| :: h.open(tried[k]).Failed? && lines[k] == LoadFailure(tried[k], h.open(tried[k]).reason))
    && h.open(fname).Failed? && lines[|tried|] == NameFailure(fname, h.open(fname).reason)
  }

  /**
   * `load_library` fails only when every existing candidate and the bare
   * name fail, and then its message is the heading followed by one line
   * per attempt, the bare name last.
   */
  lemma LoadErrorLists(h: Host)
    requires LoadOutcomeOf(h).LoadError?
    ensures var fname, dirs := DefaultLibFilename(h.platform), Candidates(h.platform, EnvValue(h.vixLibPath), h.moduleDir);
      var tried := Attempted(h, dirs, fname);
      && h.open(fname).Failed?
      && (forall k | 0 <= k < |tried| :: h.open(tried[k]).Failed?)
      && exists lines :: ListsFailures(h, lines, tried, fname) && LoadOutcomeOf(h).message == CouldNotLoad + JoinWith(lines, "\n")
  {
    var fname, dirs := DefaultLibFilename(h.platform), Candidates(h.platform, EnvValue(h.vixLibPath), h.moduleDir);
    var found := SearchDirs(h, dirs, fname);
    assert found.NotFound?;
    SearchReportsEach(h, dirs, fname);
    var tried := Attempted(h, dirs, fname);
    var lines := found.errors + [NameFailure(fname, h.open(fname).reason)];
    assert LoadOutcomeOf(h).message == CouldNotLoad + JoinWith(lines, "\n");
    assert forall k | 0 <= k < |tried| :: lines[k] == found.errors[k];
    assert ListsFailures(h, lines, tried, fname);
  }

  /** `load_library`: try each candidate that exists, then the bare name, collecting a message per failure. */
  method LoadLibrary(h: Host) returns (r: LoadOutcome)
    ensures r == LoadOutcomeOf(h)
  {
    var fname := DefaultLibFilename(h.platform);
    var errors: seq<string> := [];
    var dirs := CandidatePaths(h.platform, EnvValue(h.vixLibPath), h.moduleDir);
    for i := 0 to |dirs|
      invariant SearchDirs(h, dirs, fname) == WithErrors(errors, SearchDirs(h, dirs[i..], fname))
    {
      assert dirs[i..][1..] == dirs[i + 1..];
      var cand := CandidateFile(h.platform, dirs[i], fname);
      if h.pathExists(cand) {
        match h.open(cand)
        case Opened(lib) =>
          return Loaded(lib);
        case Failed(e) =>
          var rest := SearchDirs(h, dirs[i + 1..], fname);
          if rest.NotFound? {
            ConcatAssoc(errors, [LoadFailure(cand, e)], rest.errors);
          }
          errors := errors + [LoadFailure(cand, e)];
      }
    }
    assert SearchDirs(h, dirs, fname) == NotFound(errors + []);
    assert errors + [] == errors;
    match h.open(fname)
    case Opened(lib) =>
      return Loaded(lib);
    case Failed(e) =>
      errors := errors + [NameFailure(fname, e)];
      return LoadError(CouldNotLoad + JoinWith(errors, "\n"));
  }

  /**
   * The module-level cache of `_get_lib`: the library once loaded. The ghost
   * counter records how many times loading was attempted.
   */
  class NativeModule {
    var lib: Option<Handle>
    ghost var loads: nat

    /** Before the first `_get_lib` call (`_native.py:67`): nothing loaded yet. */
    constructor()
      ensures lib == None && loads == 0
    {
      lib := None;
      loads := 0;
    }

    /**
     * `_get_lib`: the cached library if there is one; otherwise load it,
     * and cache it when loading succeeds. Loading happens at most once per
     * success: a cached library is returned without another attempt.
     */
    method GetLib(h: Host) returns (r: LoadOutcome)
      modifies this
      ensures old(lib).Some? ==> r == Loaded(old(lib).value) && lib == old(lib) && loads == old(loads)
      ensures old(lib).None? ==> r == LoadOutcomeOf(h) && loads == old(loads) + 1
      ensures lib == if r.Loaded? then Some(r.handle) else None
    {
      if lib.None? {
        loads := loads + 1;
        var loaded := LoadLibrary(h);
        if loaded.Loaded? {
          lib := Some(loaded.handle);
        }
        return loaded;
      }
      return Loaded(lib.value);
    }
  }
}
