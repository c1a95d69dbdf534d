/**
 * The main process's translation lookup: the locale picks a translation file,
 * and `t(key)` walks the parsed translation tree one dotted segment at a time,
 * answering the key itself when the walk falls off the tree.
 *
 * Files are given as a map from file name to parsed tree; a name missing from
 * the map is a file that could not be read or parsed.
 */
module Translations {
  import opened Wrappers

  /** A parsed translation file: a string, or an object of named children. */
  datatype Node = Leaf(text: string) | Branch(children: map<string, Node>)

  /** JavaScript truthiness of a tree value: only the empty string is falsy. */
  predicate Truthy(n: Node) {
    match n
    case Leaf(s) => s != ""
    case Branch(_) => true
  }

  // ---------------------------------------------------------------------------
  // String.prototype.split with a one-character separator, and its inverse
  // ---------------------------------------------------------------------------

  /** The pieces of `s` between occurrences of `sep`; always at least one piece. */
  function Split(s: string, sep: char): seq<string> {
    if s == [] then [""]
    else
      var rest := Split(s[1..], sep);
      if s[0] == sep then [""] + rest else [[s[0]] + rest[0]] + rest[1..]
  }

  /** The pieces glued back together with `sep` between them. */
  function Join(parts: seq<string>, sep: char): string
    requires parts != []
  {
    if |parts| == 1 then parts[0] else parts[0] + [sep] + Join(parts[1..], sep)
  }

  /** Split returns at least one piece, and no piece holds the separator. */
  lemma {:induction false} SplitPieces(s: string, sep: char)
    ensures |Split(s, sep)| >= 1
    ensures forall i :: 0 <= i < |Split(s, sep)| ==> sep !in Split(s, sep)[i]
  {
    if s != [] {
      SplitPieces(s[1..], sep);
    }
  }

  /** Joining the pieces gives the original string back. */
  lemma {:induction false} JoinSplit(s: string, sep: char)
    ensures |Split(s, sep)| >= 1
    ensures Join(Split(s, sep), sep) == s
  {
    SplitPieces(s, sep);
    if s != [] {
      var rest := Split(s[1..], sep);
      JoinSplit(s[1..], sep);
      if s[0] == sep {
        assert Split(s, sep)[1..] == rest;
      } else {
        var r := Split(s, sep);
        if |rest| == 1 {
          assert r == [[s[0]] + rest[0]];
        } else {
          assert r[1..] == rest[1..];
          assert Join(rest, sep) == rest[0] + [sep] + Join(rest[1..], sep);
        }
      }
      assert s == [s[0]] + s[1..];
    }
  }

  /** A key without the separator is a single piece. */
  lemma {:induction false} SplitNoSeparator(s: string, sep: char)
    requires sep !in s
    ensures Split(s, sep) == [s]
  {
    if s != [] {
      SplitNoSeparator(s[1..], sep);
      assert s == [s[0]] + s[1..];
    }
  }

  /** The first piece of `a + [sep] + b`, for `a` without the separator, is `a`. */
  lemma {:induction false} SplitFirst(a: string, sep: char, b: string)
    requires sep !in a
    ensures Split(a + [sep] + b, sep) == [a] + Split(b, sep)
  {
    if a == [] {
      assert a + [sep] + b == [sep] + b;
      assert ([sep] + b)[1..] == b;
    } else {
      SplitFirst(a[1..], sep, b);
      assert (a + [sep] + b)[1..] == a[1..] + [sep] + b;
      assert (a + [sep] + b)[0] == a[0];
      assert a == [a[0]] + a[1..];
    }
  }

  /** Splitting what was joined gives back the pieces, when none holds the separator. */
  lemma {:induction false} SplitJoin(parts: seq<string>, sep: char)
    requires parts != []
    requires forall i :: 0 <= i < |parts| ==> sep !in parts[i]
    ensures Split(Join(parts, sep), sep) == parts
  {
    if |parts| == 1 {
      SplitNoSeparator(parts[0], sep);
    } else {
      SplitJoin(parts[1..], sep);
      SplitFirst(parts[0], sep, Join(parts[1..], sep));
      assert parts == [parts[0]] + parts[1..];
    }
  }

  // ---------------------------------------------------------------------------
  // The walk
  // ---------------------------------------------------------------------------

  /** `node[k]` when it is there and truthy; a string has no children here. */
  function Child(node: Node, k: string): Option<Node> {
    match node
    case Leaf(_) => None
    case Branch(m) => if k in m && Truthy(m[k]) then Some(m[k]) else None
  }

  /** Descends one level per key, in order; None as soon as a key is missing or falsy. */
  function Walk(node: Node, keys: seq<string>): Option<Node>
    decreases |keys|
  {
    if keys == [] then Some(node)
    else match Child(node, keys[0])
      case None => None
      case Some(c) => Walk(c, keys[1..])
  }

  /** t(key): the node the dotted key leads to, or the key itself. */
  function T(tree: Node, key: string): Node {
    match Walk(tree, Split(key, '.'))
    case Some(n) => n
    case None => Leaf(key)
  }

  /** Walking a path in two parts is walking the first and then the second from where it ended. */
  lemma {:induction false} WalkAppend(node: Node, a: seq<string>, b: seq<string>)
    ensures Walk(node, a + b) ==
      match Walk(node, a)
      case None => None
      case Some(m) => Walk(m, b)
    decreases |a|
  {
    if a == [] {
      assert a + b == b;
    } else {
      assert (a + b)[0] == a[0];
      assert (a + b)[1..] == a[1..] + b;
      match Child(node, a[0])
      case None =>
      case Some(c) => WalkAppend(c, a[1..], b);
    }
  }

  /** Every node a walk reaches over at least one key is truthy. */
  lemma {:induction false} WalkReachesTruthy(node: Node, keys: seq<string>)
    requires keys != []
    ensures Walk(node, keys).Some? ==> Truthy(Walk(node, keys).value)
    decreases |keys|
  {
    match Child(node, keys[0])
    case None =>
    case Some(c) =>
      if |keys| > 1 {
        WalkReachesTruthy(c, keys[1..]);
      }
  }

  /**
   * t answers the original key exactly when the walk fails, and otherwise the
   * truthy node reached, which may be a whole subtree.
   */
  lemma TOutcome(tree: Node, key: string)
    ensures Walk(tree, Split(key, '.')).None? ==> T(tree, key) == Leaf(key)
    ensures Walk(tree, Split(key, '.')).Some? ==>
      T(tree, key) == Walk(tree, Split(key, '.')).value && Truthy(T(tree, key))
  {
    SplitPieces(key, '.');
    WalkReachesTruthy(tree, Split(key, '.'));
  }

  /** A key without a dot is one top-level lookup. */
  lemma TSingleSegment(tree: Node, key: string)
    requires '.' !in key
    ensures T(tree, key) == match Child(tree, key)
      case Some(n) => n
      case None => Leaf(key)
  {
    SplitNoSeparator(key, '.');
    match Child(tree, key)
    case None =>
    case Some(c) =>
      assert [key][1..] == [];
      assert Walk(tree, [key]) == Walk(c, []);
  }

  /**
   * A dotted key `head.rest` first looks `head` up, then continues with the
   * segments of `rest`; a miss anywhere answers the whole original key.
   */
  lemma TDotted(tree: Node, head: string, rest: string)
    requires '.' !in head
    ensures T(tree, head + "." + rest) == match Child(tree, head)
      case None => Leaf(head + "." + rest)
      case Some(c) =>
        match Walk(c, Split(rest, '.'))
        case Some(n) => n
        case None => Leaf(head + "." + rest)
  {
    SplitFirst(head, '.', rest);
    assert Split(head + "." + rest, '.')[1..] == Split(rest, '.');
  }

  // ---------------------------------------------------------------------------
  // Locale and file choice
  // ---------------------------------------------------------------------------

  /** `process.env.LANG || 'en'`: an unset or empty LANG means English. */
  function Locale(lang: Option<string>): string {
    if lang.Some? && lang.value != "" then lang.value else "en"
  }

  /** LANG is set and starts with `zh`. */
  predicate ChineseLang(lang: Option<string>) {
    lang.Some? && |lang.value| >= 2 && lang.value[..2] == "zh"
  }

  /** Any locale starting with `zh` reads the traditional Chinese file, all others the English one. */
  function LocaleFile(lang: Option<string>): (f: string)
    ensures f == "zh-tw.json" || f == "en.json"
    ensures f == "zh-tw.json" <==> ChineseLang(lang)
  {
    var locale := Locale(lang);
    assert "zh-tw.json"[0] != "en.json"[0];
    if |locale| >= 2 && locale[..2] == "zh" then "zh-tw.json" else "en.json"
  }

  /**
   * loadTranslations: the locale's file, or the English file when that one
   * cannot be loaded; None when the English file cannot be loaded either
   * (the exception escapes).
   */
  function LoadTranslations(lang: Option<string>, files: map<string, Node>): (r: Option<Node>)
    ensures r.None? <==> LocaleFile(lang) !in files && "en.json" !in files
    ensures r.Some? ==> r.value in files.Values
    ensures LocaleFile(lang) in files ==> r == Some(files[LocaleFile(lang)])
  {
    var name := LocaleFile(lang);
    if name in files then Some(files[name])
    else if "en.json" in files then Some(files["en.json"])
    else None
  }

  /** A LANG not starting with `zh` only ever gets the English file: the retry reads the same one. */
  lemma LoadNonChinese(lang: Option<string>, files: map<string, Node>)
    requires !ChineseLang(lang)
    ensures LoadTranslations(lang, files) == if "en.json" in files then Some(files["en.json"]) else None
  {
  }

  /** A `zh` LANG gets the traditional Chinese file when it loads, and the English file otherwise. */
  lemma LoadChinese(lang: Option<string>, files: map<string, Node>)
    requires ChineseLang(lang)
    ensures "zh-tw.json" in files ==> LoadTranslations(lang, files) == Some(files["zh-tw.json"])
    ensures "zh-tw.json" !in files && "en.json" in files ==> LoadTranslations(lang, files) == Some(files["en.json"])
    ensures "zh-tw.json" !in files && "en.json" !in files ==> LoadTranslations(lang, files).None?
  {
  }

  /** t as the module exposes it: reload the translations, then look the key up. */
  function Translate(lang: Option<string>, files: map<string, Node>, key: string): (r: Option<Node>)
    ensures r.None? <==> LocaleFile(lang) !in files && "en.json" !in files
    ensures r.Some? ==> r.value == Leaf(key) || Truthy(r.value)
  {
    match LoadTranslations(lang, files)
    case None => None
    case Some(tree) =>
      TOutcome(tree, key);
      Some(T(tree, key))
  }

  /** Whatever file is used, a key missing from it is answered with the key itself. */
  lemma TranslateMissing(lang: Option<string>, files: map<string, Node>, key: string)
    requires LoadTranslations(lang, files).Some?
    requires Walk(LoadTranslations(lang, files).value, Split(key, '.')).None?
    ensures Translate(lang, files, key) == Some(Leaf(key))
  {
  }

  /** The tree used by the examples below: `menu.new` is a string, `menu.empty` an empty one. */
  function SampleTree(): Node {
    Branch(map["menu" := MenuTree()])
  }

  function MenuTree(): Node {
    Branch(map["new" := Leaf("New note"), "empty" := Leaf("")])
  }

  /** The lookups the examples make, one level at a time. */
  lemma SampleLookups()
    ensures Child(SampleTree(), "menu") == Some(MenuTree())
    ensures Child(MenuTree(), "new") == Some(Leaf("New note"))
    ensures Child(MenuTree(), "empty") == None
    ensures Child(MenuTree(), "open") == None
  {
    assert "open" != "new" && "open" != "empty";
  }

  /** `t` on `head.last`, for a `last` without a dot, below a top-level branch. */
  lemma TTwoSegments(tree: Node, head: string, last: string)
    requires '.' !in head && '.' !in last
    ensures T(tree, head + "." + last) == match Child(tree, head)
      case None => Leaf(head + "." + last)
      case Some(c) =>
        match Child(c, last)
        case Some(n) => n
        case None => Leaf(head + "." + last)
  {
    TDotted(tree, head, last);
    SplitNoSeparator(last, '.');
    assert [last][1..] == [];
  }

  lemma TExampleLeaf()
    ensures T(SampleTree(), "menu.new") == Leaf("New note")
  {
    SampleLookups();
    assert "menu.new" == "menu" + "." + "new";
    TTwoSegments(SampleTree(), "menu", "new");
  }

  lemma TExampleSubtree()
    ensures T(SampleTree(), "menu") == MenuTree()
  {
    SampleLookups();
    TSingleSegment(SampleTree(), "menu");
  }

  lemma TExampleFalsy()
    ensures T(SampleTree(), "menu.empty") == Leaf("menu.empty")
  {
    SampleLookups();
    assert "menu.empty" == "menu" + "." + "empty";
    TTwoSegments(SampleTree(), "menu", "empty");
  }

  lemma TExampleMissing()
    ensures T(SampleTree(), "menu.open") == Leaf("menu.open")
  {
    SampleLookups();
    assert "menu.open" == "menu" + "." + "open";
    TTwoSegments(SampleTree(), "menu", "open");
  }

  lemma TExampleBelowLeaf()
    ensures T(SampleTree(), "menu.new.x") == Leaf("menu.new.x")
  {
    SampleLookups();
    assert "menu.new.x" == "menu" + "." + "new.x";
    TDotted(SampleTree(), "menu", "new.x");
    assert "new.x" == "new" + "." + "x";
    SplitFirst("new", '.', "x");
    SplitNoSeparator("x", '.');
    assert Split("new.x", '.') == ["new", "x"];
    assert Walk(MenuTree(), ["new", "x"]) == Walk(Leaf("New note"), ["x"]);
    assert Child(Leaf("New note"), "x") == None;
  }
}
