/**
 * The dependency grapher script: include directives read from the lines
 * of each scanned file, Graphviz edge lines per file or per module
 * (optionally keeping only targets that are scanned files themselves),
 * the library text those lines make, and the DOT document `render`
 * writes. Reading files, listing directories, writing the .gv file and
 * running `dot` or a viewer are not modelled: a directory's regular
 * files arrive as a `scan` parameter giving each file's name and lines.
 */
module Grapher {
  import opened Wrappers

  /* ---------- Python's `\s`, and runs of it ---------- */

  /** A character matched by `\s` in a Python 3 text pattern: the characters str.isspace() accepts. */
  predicate IsSpace(c: char)
  {
    var n := c as int;
    n == 0x20 || 0x09 <= n <= 0x0D || 0x1C <= n <= 0x1F || n == 0x85 || n == 0xA0 || n == 0x1680 ||
    0x2000 <= n <= 0x200A || n == 0x2028 || n == 0x2029 || n == 0x202F || n == 0x205F || n == 0x3000
  }

  predicate AllSpace(s: string)
  {
    forall k :: 0 <= k < |s| ==> IsSpace(s[k])
  }

  predicate NoSpace(s: string)
  {
    forall k :: 0 <= k < |s| ==> !IsSpace(s[k])
  }

  /** The end of the longest run from `i` of whitespace (`space`) or of non-whitespace (`!space`). */
  function Span(s: string, i: nat, space: bool): (j: nat)
    requires i <= |s|
    ensures i <= j <= |s|
    ensures forall k :: i <= k < j ==> IsSpace(s[k]) == space
    ensures j == |s| || IsSpace(s[j]) != space
    decreases |s| - i
  {
    if i < |s| && IsSpace(s[i]) == space then Span(s, i + 1, space) else i
  }

  /** A run is determined by where it starts: any maximal run from `i` ends where Span says. */
  lemma {:induction false} SpanUnique(s: string, i: nat, space: bool, m: nat)
    requires i <= m <= |s|
    requires forall k :: i <= k < m ==> IsSpace(s[k]) == space
    requires m == |s| || IsSpace(s[m]) != space
    ensures Span(s, i, space) == m
    decreases m - i
  {
    if i < m {
      SpanUnique(s, i + 1, space, m);
    }
  }

  /* ---------- GraphFile.__get_include_list ---------- */

  /**
   * The group `(\S+)` of `^#\s*include\s+(\S+)` searched in one line
   * with re.findall: `#` in the first column, optional whitespace, the
   * word include, at least one whitespace, then the longest run of
   * non-whitespace. `^` without MULTILINE only matches at the start, so a
   * line yields at most one token.
   */
  function IncludeToken(line: string): (r: Option<string>)
    ensures r.Some? ==> |r.value| >= 1 && NoSpace(r.value)
  {
    if |line| == 0 || line[0] != '#' then None
    else
      var i := Span(line, 1, true);
      if !(i + 7 <= |line| && line[i..i + 7] == "include") then None
      else
        var j := Span(line, i + 7, true);
        if j == i + 7 then None
        else
          var k := Span(line, j, false);
          if k == j then None else Some(line[j..k])
  }

  /** The pieces of a directive line: `#`, spaces, `include`, at least one space, the token, and what follows it. */
  predicate DirectiveParts(line: string, a: string, b: string, tok: string, rest: string)
  {
    line == "#" + a + "include" + b + tok + rest &&
    AllSpace(a) && |b| >= 1 && AllSpace(b) && |tok| >= 1 && NoSpace(tok) &&
    (rest == [] || IsSpace(rest[0]))
  }

  /** The regular expression read declaratively: the line splits into directive pieces with `tok` as the token. */
  ghost predicate IsDirective(line: string, tok: string)
  {
    exists a, b, rest :: DirectiveParts(line, a, b, tok, rest)
  }

  /** A slice of a whitespace run is all whitespace. */
  lemma RunSlice(s: string, i: nat, j: nat)
    requires i <= j <= |s|
    requires forall k :: i <= k < j ==> IsSpace(s[k])
    ensures AllSpace(s[i..j])
  {
    assert forall n :: 0 <= n < j - i ==> s[i..j][n] == s[i + n];
  }

  /** A line cut at five points is the concatenation of its pieces. */
  lemma SliceConcat(line: string, i: nat, j: nat, k: nat)
    requires 1 <= i && i + 7 <= j <= k <= |line|
    ensures line == line[..1] + line[1..i] + line[i..i + 7] + line[i + 7..j] + line[j..k] + line[k..]
  {
  }

  /** What the scanner finds is a token the pattern captures. */
  lemma ScannedIsDirective(line: string, tok: string)
    requires IncludeToken(line) == Some(tok)
    ensures IsDirective(line, tok)
  {
    var i := Span(line, 1, true);
    var j := Span(line, i + 7, true);
    var k := Span(line, j, false);
    assert tok == line[j..k];
    RunSlice(line, 1, i);
    RunSlice(line, i + 7, j);
    PartsFromCuts(line, i, j, k);
  }

  /** A line cut where the scanner's runs end splits into directive pieces. */
  lemma PartsFromCuts(line: string, i: nat, j: nat, k: nat)
    requires 1 <= i && i + 7 < j < k <= |line|
    requires line[0] == '#' && line[i..i + 7] == "include"
    requires AllSpace(line[1..i]) && AllSpace(line[i + 7..j]) && NoSpace(line[j..k])
    requires k == |line| || IsSpace(line[k])
    ensures DirectiveParts(line, line[1..i], line[i + 7..j], line[j..k], line[k..])
  {
    SliceConcat(line, i, j, k);
    assert line[..1] == "#";
  }

  /** Where the pieces of a directive line sit in it. */
  lemma PartsPositions(line: string, a: string, b: string, tok: string, rest: string)
    requires DirectiveParts(line, a, b, tok, rest)
    ensures |line| == 8 + |a| + |b| + |tok| + |rest|
    ensures line[0] == '#' && line[1 + |a|..8 + |a|] == "include"
    ensures forall n :: 1 <= n < 1 + |a| ==> line[n] == a[n - 1]
    ensures forall n :: 8 + |a| <= n < 8 + |a| + |b| ==> line[n] == b[n - 8 - |a|]
    ensures forall n :: 8 + |a| + |b| <= n < 8 + |a| + |b| + |tok| ==> line[n] == tok[n - 8 - |a| - |b|]
    ensures rest != [] ==> line[8 + |a| + |b| + |tok|] == rest[0]
  {
  }

  /** Whatever the pattern captures from a line, the scanner finds. */
  lemma DirectiveIsScanned(line: string, tok: string)
    requires IsDirective(line, tok)
    ensures IncludeToken(line) == Some(tok)
  {
    var a, b, rest :| DirectiveParts(line, a, b, tok, rest);
    PartsSpans(line, a, b, tok, rest);
    ScannedAt(line, 1 + |a|, 8 + |a| + |b|, 8 + |a| + |b| + |tok|);
  }

  /** The scanner's verdict once the three runs it measures are known. */
  lemma ScannedAt(line: string, i: nat, j: nat, k: nat)
    requires |line| >= 1 && line[0] == '#'
    requires Span(line, 1, true) == i && i + 7 <= |line| && line[i..i + 7] == "include"
    requires Span(line, i + 7, true) == j && j > i + 7
    requires Span(line, j, false) == k && k > j
    ensures IncludeToken(line) == Some(line[j..k])
  {
  }

  /** The three runs the scanner measures on a directive line end where its pieces do. */
  lemma PartsSpans(line: string, a: string, b: string, tok: string, rest: string)
    requires DirectiveParts(line, a, b, tok, rest)
    ensures Span(line, 1, true) == 1 + |a|
    ensures Span(line, 8 + |a|, true) == 8 + |a| + |b|
    ensures Span(line, 8 + |a| + |b|, false) == 8 + |a| + |b| + |tok|
    ensures line[0] == '#' && line[1 + |a|..8 + |a|] == "include"
    ensures line[8 + |a| + |b|..8 + |a| + |b| + |tok|] == tok
  {
    PartsPositions(line, a, b, tok, rest);
    var i, j := 1 + |a|, 8 + |a| + |b|;
    var k := j + |tok|;
    SpanUnique(line, 1, true, i);
    assert line[j] == tok[0];
    SpanUnique(line, i + 7, true, j);
    SpanUnique(line, j, false, k);
    assert line[j..k] == tok;
  }

  /** The scanner finds exactly the token the pattern captures, and finds nothing on a line it does not match. */
  lemma IncludeTokenIff(line: string, tok: string)
    ensures IncludeToken(line) == Some(tok) <==> IsDirective(line, tok)
  {
    if IncludeToken(line) == Some(tok) {
      ScannedIsDirective(line, tok);
    }
    if IsDirective(line, tok) {
      DirectiveIsScanned(line, tok);
    }
  }

  /** `x[1:-1]`: the first and last characters dropped by position, whatever they are; "" when fewer than two. */
  function Strip(x: string): (r: string)
    ensures |x| >= 2 ==> |r| == |x| - 2
    ensures |x| < 2 ==> r == []
    ensures forall k :: 0 <= k < |r| ==> r[k] == x[k + 1]
  {
    if |x| < 2 then [] else x[1..|x| - 1]
  }

  /** Stripping a bracketed name (`"name"` or `<name>`) gives the name back. */
  lemma StripBracketed(open: char, name: string, close: char)
    ensures Strip([open] + name + [close]) == name
  {
    var x := [open] + name + [close];
    assert x[1..|x| - 1] == name;
  }

  /** The includes of a file with these lines, in line order, duplicates kept. */
  function IncludeList(lines: seq<string>): (r: seq<string>)
    ensures |r| <= |lines|
  {
    if lines == [] then []
    else
      (match IncludeToken(lines[0])
       case Some(tok) => [Strip(tok)]
       case None => []) + IncludeList(lines[1..])
  }

  /** Scanning two blocks of lines one after the other gives the includes of the first, then those of the second. */
  lemma {:induction false} IncludeListAppend(a: seq<string>, b: seq<string>)
    ensures IncludeList(a + b) == IncludeList(a) + IncludeList(b)
  {
    if a == [] {
      assert a + b == b;
    } else {
      assert (a + b)[1..] == a[1..] + b;
      IncludeListAppend(a[1..], b);
    }
  }

  /** One line contributes the stripped token exactly when it is a directive. */
  lemma IncludeListOfLine(line: string, tok: string)
    requires IsDirective(line, tok)
    ensures IncludeList([line]) == [Strip(tok)]
  {
    IncludeTokenIff(line, tok);
    assert [line][1..] == [];
  }

  /** A directive naming a header between two delimiters yields the header name. */
  lemma DelimitedInclude(a: string, open: char, name: string, close: char)
    requires AllSpace(a) && NoSpace(name) && !IsSpace(open) && !IsSpace(close)
    ensures IncludeList(["#" + a + "include " + [open] + name + [close] + "\n"]) == [name]
  {
    var line := "#" + a + "include " + [open] + name + [close] + "\n";
    var t := [open] + name + [close];
    assert NoSpace(t) by {
      assert forall k :: 1 <= k < |t| - 1 ==> t[k] == name[k - 1];
    }
    assert line == "#" + a + "include" + " " + t + "\n";
    assert DirectiveParts(line, a, " ", t, "\n");
    IncludeListOfLine(line, t);
    StripBracketed(open, name, close);
  }

  /* ---------- os.path.splitext ---------- */

  /** Index of the last `c` in `s`, -1 when there is none (str.rfind). */
  function LastIndex(s: string, c: char): (r: int)
    ensures -1 <= r < |s|
    ensures r >= 0 ==> s[r] == c
    ensures forall k :: r < k < |s| ==> s[k] != c
  {
    if s == [] then -1
    else if s[|s| - 1] == c then |s| - 1
    else LastIndex(s[..|s| - 1], c)
  }

  /**
   * posixpath.splitext: the extension starts at the last dot of the base
   * name (after the last `/`), unless every character of the base name
   * before that dot is a dot too (so ".bashrc" and "..x" have none).
   */
  function SplitExt(p: string): (r: (string, string))
  {
    var dot := LastIndex(p, '.');
    var sep := LastIndex(p, '/');
    if dot > sep && exists k :: sep < k < dot && p[k] != '.' then (p[..dot], p[dot..])
    else (p, [])
  }

  /** `d` is where a dot starts an extension: the last dot of the base name, with a non-dot before it in the base name. */
  ghost predicate ExtensionAt(p: string, d: int)
  {
    0 <= d < |p| && p[d] == '.' &&
    (forall k :: d < k < |p| ==> p[k] != '.' && p[k] != '/') &&
    exists k :: 0 <= k < d && p[k] != '.' && forall m :: k <= m < d ==> p[m] != '/'
  }

  /** Root and extension put back together give the path; the extension is non-empty exactly at an extension dot, and starts there. */
  lemma SplitExtSpec(p: string)
    ensures SplitExt(p).0 + SplitExt(p).1 == p
    ensures SplitExt(p).1 != [] <==> exists d :: ExtensionAt(p, d)
    ensures forall d :: ExtensionAt(p, d) ==> SplitExt(p) == (p[..d], p[d..])
  {
    var dot := LastIndex(p, '.');
    var sep := LastIndex(p, '/');
    forall d | ExtensionAt(p, d)
      ensures d == dot && dot > sep && exists k :: sep < k < dot && p[k] != '.'
    {
      var k :| 0 <= k < d && p[k] != '.' && forall m :: k <= m < d ==> p[m] != '/';
      assert sep < k;
    }
    if SplitExt(p).1 != [] {
      var k :| sep < k < dot && p[k] != '.';
      assert ExtensionAt(p, dot);
    }
    if SplitExt(p).1 != [] {
      assert p[..dot] + p[dot..] == p;
    }
  }

  /** The path without its extension: what module mode calls a module. */
  function Base(x: string): (r: string)
    ensures r <= x
  {
    SplitExtSpec(x);
    SplitExt(x).0
  }

  /* ---------- GraphFile ---------- */

  /** A scanned file: base name, extension (with its dot), directory path, and the includes read from it. */
  datatype GraphFile = GraphFile(name: string, ext: string, path: string, includes: seq<string>)

  /** Some scanned file is called exactly `x` (name and extension, no directory). */
  predicate IsKnown(files: seq<GraphFile>, x: string)
  {
    exists i :: 0 <= i < |files| && files[i].name + files[i].ext == x
  }

  /** With no file list every include is kept; with one, only includes naming a scanned file. */
  predicate Listed(known: Option<seq<GraphFile>>, x: string)
  {
    known.None? || IsKnown(known.value, x)
  }

  /** The edge targets in file mode: the includes that pass the filter, in order. */
  function FileTargets(includes: seq<string>, known: Option<seq<GraphFile>>): (r: seq<string>)
    ensures |r| <= |includes|
    ensures forall t :: t in r <==> t in includes && Listed(known, t)
  {
    if includes == [] then []
    else (if Listed(known, includes[0]) then [includes[0]] else []) + FileTargets(includes[1..], known)
  }

  /** The edge targets in module mode: the base of each include, dropping the file's own module, and filtered on the full include. */
  function ModuleTargets(name: string, includes: seq<string>, known: Option<seq<GraphFile>>): (r: seq<string>)
    ensures |r| <= |includes|
    ensures forall t :: t in r ==> t != name
    ensures forall t :: t in r <==> exists x :: x in includes && Base(x) == t && t != name && Listed(known, x)
  {
    if includes == [] then []
    else
      var x := includes[0];
      (if Base(x) != name && Listed(known, x) then [Base(x)] else []) + ModuleTargets(name, includes[1..], known)
  }

  /** `a` is `b` with some elements left out, the rest in the same order. */
  predicate IsSubsequence<T(==)>(a: seq<T>, b: seq<T>)
  {
    if a == [] then true
    else if b == [] then false
    else if a[0] == b[0] then IsSubsequence(a[1..], b[1..])
    else IsSubsequence(a, b[1..])
  }

  /** Without a file list nothing is filtered out. */
  lemma {:induction false} FileTargetsUnfiltered(includes: seq<string>)
    ensures FileTargets(includes, None) == includes
  {
    if includes != [] {
      FileTargetsUnfiltered(includes[1..]);
    }
  }

  /** Dropping the first element of a subsequence leaves a subsequence. */
  lemma {:induction false} SubsequenceTail<T>(a: seq<T>, b: seq<T>)
    requires a != [] && IsSubsequence(a, b)
    ensures IsSubsequence(a[1..], b)
    decreases |b|, 1
  {
    if a[0] == b[0] {
      SubsequenceExtend(a[1..], b[0], b[1..]);
    } else {
      SubsequenceTail(a, b[1..]);
      SubsequenceExtend(a[1..], b[0], b[1..]);
    }
    assert [b[0]] + b[1..] == b;
  }

  /** A subsequence stays one when an element is put in front of the longer sequence. */
  lemma {:induction false} SubsequenceExtend<T>(a: seq<T>, y: T, b: seq<T>)
    requires IsSubsequence(a, b)
    ensures IsSubsequence(a, [y] + b)
    decreases |b| + 1, 0
  {
    assert ([y] + b)[1..] == b;
    if a != [] && a[0] == y {
      SubsequenceTail(a, b);
    }
  }

  /** Keeping an element or not, a subsequence of the tail stays one of the whole. */
  lemma SubsequenceCons<T>(keep: bool, x: T, a: seq<T>, b: seq<T>)
    requires IsSubsequence(a, b)
    ensures IsSubsequence((if keep then [x] else []) + a, [x] + b)
  {
    if keep {
      assert ([x] + a)[1..] == a;
      assert ([x] + b)[1..] == b;
    } else {
      assert [] + a == a;
      SubsequenceExtend(a, x, b);
    }
  }

  /** The known-only filter of file mode keeps an order-preserving subsequence of the unfiltered targets. */
  lemma {:induction false} FileFilterIsSubsequence(includes: seq<string>, files: seq<GraphFile>)
    ensures IsSubsequence(FileTargets(includes, Some(files)), FileTargets(includes, None))
  {
    if includes != [] {
      FileFilterIsSubsequence(includes[1..], files);
      SubsequenceCons(Listed(Some(files), includes[0]), includes[0], FileTargets(includes[1..], Some(files)), FileTargets(includes[1..], None));
    }
  }

  /** The known-only filter of module mode keeps an order-preserving subsequence of the unfiltered targets. */
  lemma {:induction false} ModuleFilterIsSubsequence(name: string, includes: seq<string>, files: seq<GraphFile>)
    ensures IsSubsequence(ModuleTargets(name, includes, Some(files)), ModuleTargets(name, includes, None))
  {
    if includes != [] {
      var x := includes[0];
      ModuleFilterIsSubsequence(name, includes[1..], files);
      var a, b := ModuleTargets(name, includes[1..], Some(files)), ModuleTargets(name, includes[1..], None);
      if Base(x) != name {
        SubsequenceCons(Listed(Some(files), x), Base(x), a, b);
      } else {
        assert ModuleTargets(name, includes, Some(files)) == [] + a == a;
        assert ModuleTargets(name, includes, None) == [] + b == b;
      }
    }
  }

  /* ---------- Edge lines and joins ---------- */

  /** str.join: the pieces with `sep` between each two. */
  function Join(sep: string, xs: seq<string>): (r: string)
  {
    if xs == [] then [] else if |xs| == 1 then xs[0] else xs[0] + sep + Join(sep, xs[1..])
  }

  /** Joining one more piece appends the separator and the piece. */
  lemma {:induction false} JoinSnoc(sep: string, xs: seq<string>, y: string)
    requires xs != []
    ensures Join(sep, xs + [y]) == Join(sep, xs) + sep + y
    decreases |xs|
  {
    if |xs| == 1 {
      assert xs + [y] == [xs[0], y];
    } else {
      assert (xs + [y])[1..] == xs[1..] + [y];
      JoinSnoc(sep, xs[1..], y);
    }
  }

  /** Index of the first `c` in `s`, |s| when there is none. */
  function IndexOf(s: string, c: char): (i: nat)
    ensures i <= |s|
    ensures i < |s| ==> s[i] == c
    ensures forall k :: 0 <= k < i ==> s[k] != c
  {
    if s == [] then 0 else if s[0] == c then 0 else 1 + IndexOf(s[1..], c)
  }

  /** str.split with a one-character separator: the pieces between separators, one more than there are separators. */
  function Split(s: string, c: char): (r: seq<string>)
    ensures |r| >= 1
    ensures forall k :: 0 <= k < |r| ==> c !in r[k]
    decreases |s|
  {
    var i := IndexOf(s, c);
    if i == |s| then [s] else [s[..i]] + Split(s[i + 1..], c)
  }

  /** Splitting a join on its one-character separator gives the pieces back, when no piece holds the separator. */
  lemma {:induction false} SplitJoin(xs: seq<string>, c: char)
    requires xs != []
    requires forall k :: 0 <= k < |xs| ==> c !in xs[k]
    ensures Split(Join([c], xs), c) == xs
    decreases |xs|
  {
    var s := Join([c], xs);
    if |xs| == 1 {
      assert IndexOf(s, c) == |s|;
    } else {
      var rest := Join([c], xs[1..]);
      assert s == xs[0] + [c] + rest;
      assert s[..|xs[0]|] == xs[0] && s[|xs[0]| + 1..] == rest;
      assert s[|xs[0]|] == c;
      assert forall k :: 0 <= k < |xs[0]| ==> s[k] == xs[0][k] && s[k] in xs[0];
      assert IndexOf(s, c) == |xs[0]|;
      SplitJoin(xs[1..], c);
      assert [xs[0]] + xs[1..] == xs;
    }
  }

  /** Each target in double quotes. */
  function Quoted(ts: seq<string>): (r: seq<string>)
    ensures |r| == |ts|
    ensures forall k :: 0 <= k < |ts| ==> r[k] == "\"" + ts[k] + "\""
  {
    seq(|ts|, k requires 0 <= k < |ts| => "\"" + ts[k] + "\"")
  }

  /** The text before the targets of an edge line. */
  function EdgeHead(node: string): string
  {
    "\"" + node + "\" -> {"
  }

  /** A Graphviz edge line: `"node" -> {"t1" "t2" ...}`. */
  function EdgeLine(node: string, targets: seq<string>): (r: string)
    ensures |r| == |EdgeHead(node)| + |Join(" ", Quoted(targets))| + 1
  {
    EdgeHead(node) + Join(" ", Quoted(targets)) + "}"
  }

  /** The targets can be read back from an edge line when none holds a space. */
  lemma EdgeLineDecodes(node: string, targets: seq<string>)
    requires targets != []
    requires forall k :: 0 <= k < |targets| ==> ' ' !in targets[k]
    ensures var r := EdgeLine(node, targets);
      r[..|EdgeHead(node)|] == EdgeHead(node) && r[|r| - 1] == '}' &&
      Split(r[|EdgeHead(node)|..|r| - 1], ' ') == Quoted(targets)
  {
    var q := Quoted(targets);
    forall k | 0 <= k < |q|
      ensures ' ' !in q[k]
    {
      assert q[k] == "\"" + targets[k] + "\"";
    }
    var r := EdgeLine(node, targets);
    assert r[|EdgeHead(node)|..|r| - 1] == Join(" ", q);
    assert " " == [' '];
    SplitJoin(q, ' ');
  }

  /** GraphFile.__str__: the file-mode edge line, with `known` the file list when filtering. */
  function FileLine(f: GraphFile, known: Option<seq<GraphFile>>): string
  {
    EdgeLine(f.name + f.ext, FileTargets(f.includes, known))
  }

  /** GraphFile.__repr__: the module-mode edge line. */
  function ModuleLine(f: GraphFile, known: Option<seq<GraphFile>>): string
  {
    EdgeLine(f.name, ModuleTargets(f.name, f.includes, known))
  }

  /* ---------- GraphLibrary ---------- */

  /** A directory as a path prefix: `/` appended unless it already ends in one. */
  function DirPath(d: string): (p: string)
    ensures |p| >= 1 && p[|p| - 1] == '/'
    ensures d <= p && |p| <= |d| + 1
  {
    if |d| > 0 && d[|d| - 1] == '/' then d else d + "/"
  }

  /** Normalising a directory twice changes nothing. */
  lemma DirPathIdempotent(d: string)
    ensures DirPath(DirPath(d)) == DirPath(d)
  {
  }

  /** GraphLibrary.__get_dir_files: a GraphFile per regular file listed, split at its extension, with the includes of its lines. */
  function DirFiles(path: string, entries: seq<(string, seq<string>)>): (r: seq<GraphFile>)
    ensures |r| == |entries|
    ensures forall k :: 0 <= k < |r| ==> r[k].path == path && r[k].name + r[k].ext == entries[k].0
    ensures forall f :: f in r ==> f.path == path
  {
    seq(|entries|, k requires 0 <= k < |entries| =>
      (SplitExtSpec(entries[k].0);
       GraphFile(SplitExt(entries[k].0).0, SplitExt(entries[k].0).1, path, IncludeList(entries[k].1))))
  }

  /** The files of each directory, in argument order, every one carrying its directory's `/`-terminated path. */
  function LibraryFiles(dirs: seq<string>, scan: string -> seq<(string, seq<string>)>): (r: seq<GraphFile>)
    ensures forall f :: f in r ==> |f.path| >= 1 && f.path[|f.path| - 1] == '/'
  {
    if dirs == [] then []
    else
      var d := DirPath(dirs[|dirs| - 1]);
      LibraryFiles(dirs[..|dirs| - 1], scan) + DirFiles(d, scan(d))
  }

  /** Each line followed by a newline, as render writes them. */
  function Terminated(lines: seq<string>): (r: string)
  {
    if lines == [] then [] else Terminated(lines[..|lines| - 1]) + lines[|lines| - 1] + "\n"
  }

  /** One more line written: the prefix's text, the line, a newline. */
  lemma TerminatedStep(text: string, dot: string, lines: seq<string>, i: nat, line: string)
    requires i < |lines| && line == lines[i] && dot == text + Terminated(lines[..i])
    ensures dot + line + "\n" == text + Terminated(lines[..i + 1])
  {
    assert lines[..i + 1][..i] == lines[..i];
  }

  /** Writing each line with a newline is joining them with newlines and ending with one. */
  lemma {:induction false} TerminatedIsJoin(lines: seq<string>)
    requires lines != []
    ensures Terminated(lines) == Join("\n", lines) + "\n"
    decreases |lines|
  {
    var init := lines[..|lines| - 1];
    if init != [] {
      TerminatedIsJoin(init);
      JoinSnoc("\n", init, lines[|lines| - 1]);
      assert init + [lines[|lines| - 1]] == lines;
    } else {
      assert lines == [lines[0]];
    }
  }

  /** The DOT document: the graph header, the lines, the closing brace. */
  function DotText(name: string, lines: seq<string>): string
  {
    "digraph " + name + " {\n" + Terminated(lines) + "}"
  }

  class GraphLibrary {
    const name: string
    const mode: string
    const existonly: bool
    var files: seq<GraphFile>

    /** GraphLibrary.__init__: the files of every directory, appended in argument order. */
    constructor (dirList: seq<string>, name: string, mode: string, existonly: bool, scan: string -> seq<(string, seq<string>)>)
      ensures this.name == name && this.mode == mode && this.existonly == existonly
      ensures files == LibraryFiles(dirList, scan)
    {
      this.name := name;
      this.mode := mode;
      this.existonly := existonly;
      files := [];
      new;
      for i := 0 to |dirList|
        invariant files == LibraryFiles(dirList[..i], scan)
      {
        var path := DirPath(dirList[i]);
        files := files + DirFiles(path, scan(path));
        assert dirList[..i + 1][..i] == dirList[..i];
      }
      assert dirList[..|dirList|] == dirList;
    }

    /** The file list the edge lines are filtered against: none unless existonly. */
    function Known(): Option<seq<GraphFile>>
      reads this
    {
      if existonly then Some(files) else None
    }

    /** One file-mode line per file, in scan order. */
    function FileLines(): (r: seq<string>)
      reads this
      ensures |r| == |files|
      ensures forall k :: 0 <= k < |r| ==> r[k] == FileLine(files[k], Known())
    {
      seq(|files|, k requires 0 <= k < |files| reads this => FileLine(files[k], Known()))
    }

    /** One module-mode line per file, in scan order. */
    function ModuleLines(): (r: seq<string>)
      reads this
      ensures |r| == |files|
      ensures forall k :: 0 <= k < |r| ==> r[k] == ModuleLine(files[k], Known())
    {
      seq(|files|, k requires 0 <= k < |files| reads this => ModuleLine(files[k], Known()))
    }

    /** GraphLibrary.__str__: the file-mode lines joined by newlines. */
    function Str(): string
      reads this
    {
      Join("\n", FileLines())
    }

    /** The library text splits back into one edge line per file when no line holds a newline. */
    lemma StrSplitsIntoFileLines()
      requires files != []
      requires forall k :: 0 <= k < |files| ==> '\n' !in FileLine(files[k], Known())
      ensures Split(Str(), '\n') == FileLines()
    {
      assert "\n" == ['\n'];
      SplitJoin(FileLines(), '\n');
    }

    /** GraphLibrary.__repr__: the module-mode lines joined by newlines. */
    function Repr(): (r: string)
      reads this
    {
      Join("\n", ModuleLines())
    }

    /** The lines render writes for the library's mode: none for a mode other than "file" or "module". */
    function ModeLines(): seq<string>
      reads this
    {
      if mode == "file" then FileLines() else if mode == "module" then ModuleLines() else []
    }

    /** render: the text written to the .gv file, line by line. */
    method Render() returns (dot: string)
      ensures dot == DotText(name, ModeLines())
    {
      dot := "digraph " + name + " {\n";
      if mode == "file" {
        dot := WriteFileLines(dot);
      }
      if mode == "module" {
        dot := WriteModuleLines(dot);
      }
      dot := dot + "}";
    }

    /** The file-mode loop of render: each file's edge line and a newline, in scan order. */
    method WriteFileLines(text: string) returns (dot: string)
      ensures dot == text + Terminated(FileLines())
    {
      dot := text;
      var known := Known();
      ghost var lines := FileLines();
      for i := 0 to |files|
        invariant dot == text + Terminated(lines[..i])
      {
        var line := FileLine(files[i], known);
        TerminatedStep(text, dot, lines, i, line);
        dot := dot + line + "\n";
      }
      assert lines[..|files|] == lines;
    }

    /** The module-mode loop of render: each file's module edge line and a newline, in scan order. */
    method WriteModuleLines(text: string) returns (dot: string)
      ensures dot == text + Terminated(ModuleLines())
    {
      dot := text;
      var known := Known();
      ghost var lines := ModuleLines();
      for i := 0 to |files|
        invariant dot == text + Terminated(lines[..i])
      {
        var line := ModuleLine(files[i], known);
        TerminatedStep(text, dot, lines, i, line);
        dot := dot + line + "\n";
      }
      assert lines[..|files|] == lines;
    }

    /** The file-mode DOT body is the library text (what str() prints) followed by a newline. */
    lemma RenderIsStrPlusNewline()
      requires mode == "file"
      ensures DotText(name, ModeLines()) == "digraph " + name + " {\n" + (if files == [] then "" else Str() + "\n") + "}"
    {
      if files != [] {
        TerminatedIsJoin(FileLines());
      }
    }

    /** The module-mode DOT body is the library text repr() gives, followed by a newline. */
    lemma RenderIsReprPlusNewline()
      requires mode == "module"
      ensures DotText(name, ModeLines()) == "digraph " + name + " {\n" + (if files == [] then "" else Repr() + "\n") + "}"
    {
      if files != [] {
        TerminatedIsJoin(ModuleLines());
      }
    }
  }
}
