/**
  `get_input_path`: which path the tool works on. The clipboard text, stripped of
  surrounding whitespace, is taken when it is non-empty and names an existing path;
  otherwise the first command-line argument, when there is one and it exists. A first
  argument that does not exist and the absence of both sources are two different errors.

  The clipboard text, the argument vector and the set of existing paths (the paths
  `os.path.exists` holds for) are parameters.
 */
module InputPath {

  /** Python's `str.isspace` on one character: the characters `str.strip()` removes. */
  predicate IsSpace(c: char)
  {
    || '\U{0009}' <= c <= '\U{000D}'
    || '\U{001C}' <= c <= '\U{0020}'
    || c == '\U{0085}' || c == '\U{00A0}' || c == '\U{1680}'
    || '\U{2000}' <= c <= '\U{200A}'
    || c == '\U{2028}' || c == '\U{2029}' || c == '\U{202F}' || c == '\U{205F}' || c == '\U{3000}'
  }

  ghost predicate AllSpace(s: string)
  {
    forall k :: 0 <= k < |s| ==> IsSpace(s[k])
  }

  /** The first index from `i` on that holds no whitespace, or `|s|` when there is none. */
  function SkipSpace(s: string, i: nat): (r: nat)
    requires i <= |s|
    ensures i <= r <= |s|
    ensures forall k :: i <= k < r ==> IsSpace(s[k])
    ensures r < |s| ==> !IsSpace(s[r])
    decreases |s| - i
  {
    if i < |s| && IsSpace(s[i]) then SkipSpace(s, i + 1) else i
  }

  /** The end of `s[lo..j]` once its trailing whitespace is dropped. */
  function SkipSpaceBack(s: string, lo: nat, j: nat): (r: nat)
    requires lo <= j <= |s|
    ensures lo <= r <= j
    ensures forall k :: r <= k < j ==> IsSpace(s[k])
    ensures r > lo ==> !IsSpace(s[r - 1])
    decreases j
  {
    if j > lo && IsSpace(s[j - 1]) then SkipSpaceBack(s, lo, j - 1) else j
  }

  /**
    `str.strip()`: the part of `s` between its leading and its trailing whitespace. It is
    a slice of `s` with only whitespace before and after it, and it neither starts nor
    ends with whitespace.
   */
  function Strip(s: string): (r: string)
    ensures var i := SkipSpace(s, 0);
      && i + |r| <= |s|
      && r == s[i..i + |r|]
      && (forall k :: 0 <= k < i ==> IsSpace(s[k]))
      && (forall k :: i + |r| <= k < |s| ==> IsSpace(s[k]))
      && (r != [] ==> !IsSpace(r[0]) && !IsSpace(r[|r| - 1]))
  {
    var i := SkipSpace(s, 0);
    s[i..SkipSpaceBack(s, i, |s|)]
  }

  lemma {:induction false} SkipSpaceAt(s: string, i: nat, j: nat)
    requires i <= j <= |s|
    requires forall k :: i <= k < j ==> IsSpace(s[k])
    requires j < |s| ==> !IsSpace(s[j])
    ensures SkipSpace(s, i) == j
    decreases j - i
  {
    if i < j {
      SkipSpaceAt(s, i + 1, j);
    }
  }

  lemma {:induction false} SkipSpaceBackAt(s: string, lo: nat, i: nat, j: nat)
    requires lo <= i <= j <= |s|
    requires forall k :: i <= k < j ==> IsSpace(s[k])
    requires i > lo ==> !IsSpace(s[i - 1])
    ensures SkipSpaceBack(s, lo, j) == i
    decreases j - i
  {
    if i < j {
      SkipSpaceBackAt(s, lo, i, j - 1);
    }
  }

  /**
    Any slice `s[i..j]` with only whitespace around it, and no whitespace at either of its
    own ends, is what `Strip` returns; with the slice empty, `s` is all whitespace and
    strips to the empty string.
   */
  lemma StripUnique(s: string, i: nat, j: nat)
    requires i <= j <= |s|
    requires forall k :: 0 <= k < i ==> IsSpace(s[k])
    requires forall k :: j <= k < |s| ==> IsSpace(s[k])
    requires i < j ==> !IsSpace(s[i]) && !IsSpace(s[j - 1])
    ensures Strip(s) == s[i..j]
  {
    if i < j {
      SkipSpaceAt(s, 0, i);
      SkipSpaceBackAt(s, i, j, |s|);
    } else {
      SkipSpaceAt(s, 0, |s|);
    }
  }

  /** Stripping twice removes nothing more. */
  lemma StripIdempotent(s: string)
    ensures Strip(Strip(s)) == Strip(s)
  {
    var r := Strip(s);
    StripUnique(r, 0, |r|);
    assert r[0..|r|] == r;
  }

  /** Only text made of whitespace alone strips to the empty string. */
  lemma StripEmptyIffAllSpace(s: string)
    ensures Strip(s) == [] <==> AllSpace(s)
  {
    if AllSpace(s) {
      StripUnique(s, |s|, |s|);
    }
  }

  /** Whitespace around text changes nothing of what it strips to. */
  lemma StripPadded(pre: string, s: string, post: string)
    requires AllSpace(pre) && AllSpace(post)
    ensures Strip(pre + s + post) == Strip(s)
  {
    var t := pre + s + post;
    var r := Strip(s);
    var a := SkipSpace(s, 0);
    var i, j := |pre| + a, |pre| + a + |r|;
    assert forall k :: 0 <= k < |s| ==> t[|pre| + k] == s[k];
    assert forall k :: |pre| + |s| <= k < |t| ==> t[k] == post[k - |pre| - |s|];
    assert t[i..j] == r;
    StripUnique(t, i, j);
  }

  /** The path chosen, or why none could be. */
  datatype InputResult = Found(path: string) | ArgPathMissing(arg: string) | NoValidInput

  /**
    `get_input_path` with `clipboard` as the text on the clipboard, `argv` as `sys.argv`
    and `existing` as the paths that exist. The printed messages are left out, and
    `sys.exit(1)` is the error result.
   */
  function GetInputPath(clipboard: string, argv: seq<string>, existing: set<string>): (r: InputResult)
    ensures r.Found? ==> r.path in existing
    ensures r.Found? ==> r.path == Strip(clipboard) || (|argv| >= 2 && r.path == argv[1])
    ensures Strip(clipboard) != [] && Strip(clipboard) in existing ==> r == Found(Strip(clipboard))
    ensures !(Strip(clipboard) != [] && Strip(clipboard) in existing) && |argv| >= 2 && argv[1] in existing ==>
      r == Found(argv[1])
    ensures r.ArgPathMissing? <==>
      !(Strip(clipboard) != [] && Strip(clipboard) in existing) && |argv| >= 2 && argv[1] !in existing
    ensures r.ArgPathMissing? ==> r.arg == argv[1]
    ensures r == NoValidInput <==> !(Strip(clipboard) != [] && Strip(clipboard) in existing) && |argv| < 2
  {
    var clipboardText := Strip(clipboard);
    if clipboardText != [] && clipboardText in existing then
      Found(clipboardText)
    else if |argv| >= 2 then
      var argPath := argv[1];
      if argPath in existing then Found(argPath) else ArgPathMissing(argPath)
    else
      NoValidInput
  }

  /** Only the first argument is looked at: further arguments change nothing. */
  lemma ExtraArgumentsIgnored(clipboard: string, argv: seq<string>, existing: set<string>)
    requires |argv| >= 2
    ensures GetInputPath(clipboard, argv, existing) == GetInputPath(clipboard, argv[..2], existing)
  {
  }

  /** Whitespace copied around a path on the clipboard does not matter. */
  lemma ClipboardPaddingIgnored(pre: string, clipboard: string, post: string, argv: seq<string>, existing: set<string>)
    requires AllSpace(pre) && AllSpace(post)
    ensures GetInputPath(pre + clipboard + post, argv, existing) == GetInputPath(clipboard, argv, existing)
  {
    StripPadded(pre, clipboard, post);
  }

  /** More existing paths never turn a found path into an error. */
  lemma FoundStaysFound(clipboard: string, argv: seq<string>, existing: set<string>, more: set<string>)
    requires existing <= more
    requires GetInputPath(clipboard, argv, existing).Found?
    ensures GetInputPath(clipboard, argv, more).Found?
  {
  }

  /** The clipboard test: the clipboard holds the one existing path, whatever the arguments. */
  lemma PathFromClipboard(argv: seq<string>)
    ensures GetInputPath("/tmp/somepath", argv, {"/tmp/somepath"}) == Found("/tmp/somepath")
  {
    StripUnique("/tmp/somepath", 0, 13);
    assert "/tmp/somepath"[0..13] == "/tmp/somepath";
  }

  /** The argument test: an empty clipboard, and the one existing path as the first argument. */
  lemma PathFromArgument()
    ensures GetInputPath("", ["prog", "/tmp/argpath"], {"/tmp/argpath"}) == Found("/tmp/argpath")
  {
  }
}
