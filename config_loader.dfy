/**
  Detection of a configuration file's format from its extension or its file name,
  and the format choice made when a configuration reader is built.
  Paths follow POSIX pathlib rules ('/' separates components).
*/
module ConfigLoader {
  import opened Common

  datatype ConfigType = TOML | YAML | JSON

  /** A string of k dots. */
  function Dots(k: nat): (d: string)
  {
    seq(k, _ => '.')
  }

  /** Python's `s.lstrip(".")`: the suffix of s left after removing every leading dot. */
  function LStripDots(s: string): (r: string)
    ensures |r| <= |s| && r == s[|s| - |r|..]
    ensures forall j :: 0 <= j < |s| - |r| ==> s[j] == '.'
    ensures r == [] || r[0] != '.'
  {
    if s != [] && s[0] == '.' then LStripDots(s[1..]) else s
  }

  /** The table of known extensions, applied to an already cleaned extension. */
  function ClassifyCleaned(e: string): ConfigType
  {
    if e == "json" then JSON
    else if e == "yaml" || e == "yml" then YAML
    else if e == "toml" then TOML
    else JSON
  }

  /**
    detect_config_type_by_extension: lower-case, strip leading dots, look up, JSON by default.
    Stated without its code: YAML exactly for spellings of "yaml" or "yml", TOML exactly
    for spellings of "toml", JSON for everything else (so the function is total).
  */
  function DetectByExtension(extension: string): (t: ConfigType)
    ensures t == YAML <==> Spells(extension, "yaml") || Spells(extension, "yml")
    ensures t == TOML <==> Spells(extension, "toml")
    ensures t == JSON <==> !Spells(extension, "yaml") && !Spells(extension, "yml") && !Spells(extension, "toml")
  {
    SpellsCleaned(extension, "yaml");
    SpellsCleaned(extension, "yml");
    SpellsCleaned(extension, "toml");
    ClassifyCleaned(LStripDots(Lower(extension)))
  }

  /**
    Independent description of a match: `ext` is `w` once some run of leading dots is
    dropped and the rest is compared without regard to ASCII case.
  */
  ghost predicate Spells(ext: string, w: string)
  {
    exists k :: 0 <= k <= |ext| && (forall j :: 0 <= j < k ==> ext[j] == '.') && Lower(ext[k..]) == w
  }

  lemma {:induction false} LStripDotsOfDotsPrefix(k: nat, s: string)
    ensures LStripDots(Dots(k) + s) == LStripDots(s)
  {
    if k > 0 {
      assert (Dots(k) + s)[0] == '.';
      assert (Dots(k) + s)[1..] == Dots(k - 1) + s;
      LStripDotsOfDotsPrefix(k - 1, s);
    } else {
      assert Dots(k) + s == s;
    }
  }

  /** Any number of leading dots in front of an extension is ignored. */
  lemma DetectIgnoresLeadingDots(k: nat, ext: string)
    ensures DetectByExtension(Dots(k) + ext) == DetectByExtension(ext)
  {
    assert Lower(Dots(k) + ext) == Dots(k) + Lower(ext);
    LStripDotsOfDotsPrefix(k, Lower(ext));
  }

  /** Detection depends on the extension only up to ASCII case. */
  lemma DetectIgnoresCase(a: string, b: string)
    requires Lower(a) == Lower(b)
    ensures DetectByExtension(a) == DetectByExtension(b)
  {
  }

  /** When `ext` spells a word that does not start with a dot, the cleaned extension is that word. */
  lemma SpellsCleaned(ext: string, w: string)
    requires w != [] && w[0] != '.'
    ensures Spells(ext, w) <==> LStripDots(Lower(ext)) == w
  {
    var low := Lower(ext);
    var r := LStripDots(low);
    var m := |ext| - |r|;
    assert forall j :: 0 <= j < |ext| ==> (low[j] == '.' <==> ext[j] == '.');
    assert Lower(ext[m..]) == r;
    if Spells(ext, w) {
      var k :| 0 <= k <= |ext| && (forall j :: 0 <= j < k ==> ext[j] == '.') && Lower(ext[k..]) == w;
      assert k < |ext| && ext[k] != '.';
      assert k == m;
    }
    if r == w {
      assert forall j :: 0 <= j < m ==> ext[j] == '.';
    }
  }

  /** Index of the last occurrence of c in s, or -1 (Python's rfind). */
  function LastIndexOf(s: string, c: char): (i: int)
    ensures -1 <= i < |s|
    ensures i >= 0 ==> s[i] == c
    ensures forall j :: i < j < |s| ==> s[j] != c
  {
    if s == [] then -1
    else if s[|s| - 1] == c then |s| - 1
    else LastIndexOf(s[..|s| - 1], c)
  }

  /**
    pathlib's `name`: the last component of the path once empty and "." components
    (repeated or trailing slashes, "/./") are dropped; "" when there is none.
  */
  function PathName(path: string): (name: string)
    ensures '/' !in name && name != "."
    decreases |path|
  {
    var i := LastIndexOf(path, '/');
    var tail := path[i + 1..];
    if tail == "" || tail == "." then
      if i < 0 then "" else PathName(path[..i])
    else tail
  }

  /** pathlib's `suffix`: from the last dot of the name, if it is neither first nor last. */
  function Suffix(name: string): (s: string)
    ensures s == [] || (|s| >= 2 && s[0] == '.' && '.' !in s[1..] && |s| < |name| && s == name[|name| - |s|..])
  {
    var i := LastIndexOf(name, '.');
    if 0 < i < |name| - 1 then name[i..] else ""
  }

  /**
    detect_config_type_by_filename: the suffix of the final path component, without its
    dot, decides when there is one; with no suffix the whole file name (directories
    included) is classified.
  */
  function DetectByFilename(filename: string): (t: ConfigType)
    ensures Suffix(PathName(filename)) != "" ==> t == DetectByExtension(Suffix(PathName(filename))[1..])
    ensures Suffix(PathName(filename)) == "" ==> t == DetectByExtension(filename)
  {
    var suffix := Suffix(PathName(filename));
    var ext := LStripDots(suffix);
    assert suffix != "" ==> suffix[1..] != [] && suffix[1..][0] != '.' && ext == suffix[1..];
    DetectByExtension(if ext == "" then filename else ext)
  }

  lemma {:induction false} LastIndexOfAppend(a: string, b: string, c: char)
    requires c !in b
    ensures LastIndexOf(a + b, c) == LastIndexOf(a, c)
    decreases |b|
  {
    if b != [] {
      assert (a + b)[..|a + b| - 1] == a + b[..|b| - 1];
      LastIndexOfAppend(a, b[..|b| - 1], c);
    } else {
      assert a + b == a;
    }
  }

  lemma PathNameAfterDirectory(dir: string, name: string)
    requires dir == [] || dir[|dir| - 1] == '/'
    requires name != [] && name != "." && '/' !in name
    ensures PathName(dir + name) == name
  {
    LastIndexOfAppend(dir, name, '/');
    var i := LastIndexOf(dir, '/');
    assert i == |dir| - 1;
    assert (dir + name)[i + 1..] == name;
  }

  lemma SuffixOfDottedName(stem: string, ext: string)
    requires stem != [] && ext != [] && '.' !in ext
    ensures Suffix(stem + "." + ext) == "." + ext
  {
    var front := stem + ".";
    assert stem + "." + ext == front + ext;
    LastIndexOfAppend(front, ext, '.');
    assert front[|stem|] == '.';
    assert LastIndexOf(front, '.') == |stem|;
    assert (front + ext)[|stem|..] == "." + ext;
  }

  /**
    Only the last suffix of the final component counts: for a file `dir + stem + "." + ext`
    (dir empty or ending in '/', stem non-empty, ext non-empty without '.' or '/'),
    the format is the one `ext` alone gives.
  */
  lemma DetectByFilenameUsesLastSuffix(dir: string, stem: string, ext: string)
    requires dir == [] || dir[|dir| - 1] == '/'
    requires stem != [] && '/' !in stem
    requires ext != [] && '/' !in ext && '.' !in ext
    ensures DetectByFilename(dir + stem + "." + ext) == DetectByExtension(ext)
  {
    var name := stem + "." + ext;
    var path := dir + stem + "." + ext;
    assert path == dir + name;
    assert name[|stem|] == '.';
    PathNameAfterDirectory(dir, name);
    SuffixOfDottedName(stem, ext);
    var dotted := "." + ext;
    assert dotted[0] == '.' && dotted[1..] == ext;
    assert ext[0] != '.';
    assert LStripDots(ext) == ext;
    assert LStripDots(dotted) == ext;
    assert LStripDots(Suffix(PathName(path))) == ext;
  }

  /** ConfigReader's choice of format: the explicit one if given, else detection by file name. */
  function SelectConfigType(configFile: string, configType: Option<ConfigType>): (t: ConfigType)
    ensures configType.Some? ==> t == configType.value
    ensures configType.None? ==> t == DetectByFilename(configFile)
  {
    match configType
    case Some(explicit) => explicit
    case None => DetectByFilename(configFile)
  }

  /**
    The fallback classifies the whole file name, directories included, so a suffix-less
    name under a directory ("dir/yml", "conf/toml") never matches a known format: it gives JSON.
  */
  lemma DirectoryDefeatsFallback(filename: string)
    requires '/' in filename
    requires Suffix(PathName(filename)) == ""
    ensures DetectByFilename(filename) == JSON
  {
    var p :| 0 <= p < |filename| && filename[p] == '/';
    var low := Lower(filename);
    var r := LStripDots(low);
    var m := |filename| - |r|;
    assert low[p] == '/';
    assert m <= p;
    assert r[p - m] == '/';
    NoKnownExtensionHasSlash(r, p - m);
  }

  /** None of the recognised extensions contains a '/'. */
  lemma NoKnownExtensionHasSlash(e: string, i: int)
    requires 0 <= i < |e| && e[i] == '/'
    ensures e != "json" && e != "yaml" && e != "yml" && e != "toml"
  {
  }
}
