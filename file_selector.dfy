/** The file selector's helpers: the name shown for a path and the icon
    chosen from the file's extension. */
module FileSelector {
  import opened PathText

  /** `formatFileName`: the last element of `filePath.split(/[/\\]/)`. */
  function FormatFileName(filePath: string): (r: string)
    ensures |r| <= |filePath| && r == filePath[|filePath| - |r|..]
    ensures forall i | 0 <= i < |r| :: r[i] != '/' && r[i] != '\\'
    ensures |r| < |filePath| ==> filePath[|filePath| - |r| - 1] in {'/', '\\'}
  {
    AfterLast(filePath, {'/', '\\'})
  }

  /** A path without either separator is shown whole. */
  lemma FormatFileNameWhole(filePath: string)
    requires forall i | 0 <= i < |filePath| :: filePath[i] != '/' && filePath[i] != '\\'
    ensures FormatFileName(filePath) == filePath
  {
    AfterLastNoSeparator(filePath, {'/', '\\'});
  }

  /** The shown name of `dir + sep + name` is `name`, whatever the
      directory and whichever separator. */
  lemma FormatFileNameJoin(dir: string, sep: char, name: string)
    requires sep == '/' || sep == '\\'
    requires forall i | 0 <= i < |name| :: name[i] != '/' && name[i] != '\\'
    ensures FormatFileName(dir + [sep] + name) == name
  {
    var p := dir + [sep] + name;
    assert p[|p| - |name|..] == name;
    assert p[|p| - |name| - 1] == sep;
    AfterLastUnique(p, {'/', '\\'}, name);
  }

  /** `toLowerCase` on the ASCII letters. */
  function LowerChar(c: char): (d: char)
    ensures 'A' <= c <= 'Z' ==> d as int == c as int + 32
    ensures !('A' <= c <= 'Z') ==> d == c
  {
    if 'A' <= c <= 'Z' then (c as int + 32) as char else c
  }

  function Lower(s: string): (r: string)
    ensures |r| == |s|
    ensures forall i | 0 <= i < |s| :: r[i] == LowerChar(s[i])
  {
    seq(|s|, i requires 0 <= i < |s| => LowerChar(s[i]))
  }

  /** Lower-casing twice is lower-casing once. */
  lemma LowerIdempotent(s: string)
    ensures Lower(Lower(s)) == Lower(s)
  {
  }

  /** `fileName.split('.').pop()`: the text after the last dot, or the whole
      name. `split` never returns an empty array, so the optional chaining
      never short-circuits. */
  function Extension(fileName: string): (r: string)
    ensures |r| <= |fileName| && r == fileName[|fileName| - |r|..]
    ensures forall i | 0 <= i < |r| :: r[i] != '.'
  {
    AfterLast(fileName, {'.'})
  }

  /** Lower-casing keeps dots where they are, so it commutes with taking
      the extension. */
  lemma ExtensionOfLower(s: string)
    ensures Extension(Lower(s)) == Lower(Extension(s))
  {
    var e := Extension(s);
    LowerKeepsLastComponent(s, e);
    AfterLastUnique(Lower(s), {'.'}, Lower(e));
  }

  lemma LowerKeepsLastComponent(s: string, t: string)
    requires IsLastComponent(s, {'.'}, t)
    ensures IsLastComponent(Lower(s), {'.'}, Lower(t))
  {
    var k := |s| - |t|;
    LowerSuffix(s, k);
    LowerKeepsDots(t);
    if k > 0 {
      LowerKeepsDots(s);
    }
  }

  lemma LowerSuffix(s: string, k: nat)
    requires k <= |s|
    ensures Lower(s[k..]) == Lower(s)[k..]
  {
  }

  /** Lower-casing neither adds nor removes dots. */
  lemma LowerKeepsDots(s: string)
    ensures forall i | 0 <= i < |s| :: (Lower(s)[i] == '.') == (s[i] == '.')
  {
  }

  const DefaultFileIcon: string := "📄"
  const ImageIcon: string := "\U{1F5BC}\U{FE0F}"
  const GearIcon: string := "\U{2699}\U{FE0F}"

  /** The object literal `iconMap`, by its own keys. */
  const IconMap: map<string, string> := map[
    "pdf" := "📄",
    "doc" := "📝", "docx" := "📝",
    "xls" := "📊", "xlsx" := "📊",
    "ppt" := "📋", "pptx" := "📋",
    "txt" := "📄",
    "jpg" := ImageIcon, "jpeg" := ImageIcon, "png" := ImageIcon, "gif" := ImageIcon, "bmp" := ImageIcon,
    "mp4" := "🎬", "avi" := "🎬", "mov" := "🎬", "wmv" := "🎬",
    "mp3" := "🎵", "wav" := "🎵", "flac" := "🎵",
    "zip" := "📦", "rar" := "📦", "7z" := "📦",
    "exe" := GearIcon, "msi" := GearIcon,
    "js" := "💻", "html" := "💻", "css" := "💻", "json" := "💻",
    "py" := "🐍", "java" := "☕", "cpp" := "⚡"
  ]

  /** What `iconMap[extension]` reads besides the own keys: members
      inherited from `Object.prototype`, as far as an already lower-cased
      key can name one. */
  const PrototypeKeys: set<string> := {"constructor", "__proto__"}

  /** The inherited names are already lower case and are not keys of the
      table. */
  lemma PrototypeKeysNotOwn()
    ensures forall k | k in PrototypeKeys :: k !in IconMap && Lower(k) == k
  {
    assert Lower("constructor") == "constructor";
    assert Lower("__proto__") == "__proto__";
  }

  /** The value read by `iconMap[extension]`. */
  datatype IconValue =
    | Icon(text: string)
    | Inherited(key: string)   // a function or `Object.prototype` itself

  /** `getFileIcon` as written: a property read through the prototype
      chain, then `|| '📄'`, which replaces only a missing (`undefined`)
      entry; all the inherited members are truthy. */
  function FileIconAsWritten(fileName: string): (r: IconValue)
    ensures r.Inherited? ==> r.key in PrototypeKeys && r.key == Lower(Extension(fileName))
    ensures Lower(Extension(fileName)) in PrototypeKeys ==> r == Inherited(Lower(Extension(fileName)))
  {
    PrototypeKeysNotOwn();
    var ext := Lower(Extension(fileName));
    if ext in IconMap then Icon(IconMap[ext])
    else if ext in PrototypeKeys then Inherited(ext)
    else Icon(DefaultFileIcon)
  }

  /** A file called `notes.constructor` gets the `Object` function
      instead of an icon. */
  lemma FileIconConstructor()
    ensures FileIconAsWritten("notes.constructor") == Inherited("constructor")
  {
    assert "notes.constructor" == "notes" + "." + "constructor";
    ExtensionAfterDot("notes", "constructor");
    PrototypeKeysNotOwn();
  }

  /** A file called `x.__proto__` gets `Object.prototype` instead of an
      icon. */
  lemma FileIconProto()
    ensures FileIconAsWritten("x.__proto__") == Inherited("__proto__")
  {
    assert "x.__proto__" == "x" + "." + "__proto__";
    ExtensionAfterDot("x", "__proto__");
    PrototypeKeysNotOwn();
  }

  /** `getFileIcon` with an own-key lookup: the table's icon for the
      lower-cased extension, the document icon for anything else. */
  function FileIcon(fileName: string): (icon: string)
    ensures icon == DefaultFileIcon || icon in IconMap.Values
    ensures Lower(Extension(fileName)) !in IconMap ==> icon == DefaultFileIcon
  {
    var ext := Lower(Extension(fileName));
    if ext in IconMap then IconMap[ext] else DefaultFileIcon
  }

  /** The corrected lookup agrees with the code on every extension that is
      not an inherited member name, and yields a string icon on those. */
  lemma FileIconFixed(fileName: string)
    ensures Lower(Extension(fileName)) !in PrototypeKeys ==> FileIconAsWritten(fileName) == Icon(FileIcon(fileName))
    ensures Lower(Extension(fileName)) in PrototypeKeys ==> FileIcon(fileName) == DefaultFileIcon
  {
    PrototypeKeysNotOwn();
  }

  /** The icon, or the inherited member, ignores letter case. */
  lemma FileIconIgnoresCase(fileName: string)
    ensures FileIconAsWritten(Lower(fileName)) == FileIconAsWritten(fileName)
  {
    ExtensionOfLower(fileName);
    LowerIdempotent(Extension(fileName));
  }

  /** The extension of `stem.ext` is `ext` when `ext` has no dot, and a
      name without a dot is its own extension. */
  lemma ExtensionAfterDot(stem: string, ext: string)
    requires forall i | 0 <= i < |ext| :: ext[i] != '.'
    ensures Extension(stem + "." + ext) == ext
    ensures Extension(ext) == ext
  {
    var p := stem + "." + ext;
    assert p[|p| - |ext|..] == ext;
    assert p[|p| - |ext| - 1] == '.';
    AfterLastUnique(p, {'.'}, ext);
    AfterLastNoSeparator(ext, {'.'});
  }

  /** Only the text after the last dot matters; a name without a dot is
      its own lookup key: an own key gives its icon, an inherited name its
      member, anything else the document icon. */
  lemma FileIconByExtension(stem: string, ext: string)
    requires forall i | 0 <= i < |ext| :: ext[i] != '.'
    ensures FileIconAsWritten(stem + "." + ext) == FileIconAsWritten(ext)
    ensures FileIconAsWritten(ext) ==
      if Lower(ext) in IconMap then Icon(IconMap[Lower(ext)])
      else if Lower(ext) in PrototypeKeys then Inherited(Lower(ext))
      else Icon(DefaultFileIcon)
  {
    ExtensionAfterDot(stem, ext);
  }
}
