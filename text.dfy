/** The Python string operations the ranking engine relies on: `str.lower`, `str.endswith`,
    the blank test `not s.strip()`, `os.path.splitext` and `os.path.join` (POSIX flavour). */
module Text {

  /** `str.lower` on one character, restricted to ASCII letters. */
  function LowerChar(c: char): char
  {
    if 'A' <= c <= 'Z' then (c as int + 32) as char else c
  }

  function Lower(s: string): string
  {
    seq(|s|, i requires 0 <= i < |s| => LowerChar(s[i]))
  }

  predicate EndsWith(s: string, suffix: string)
  {
    |suffix| <= |s| && s[|s| - |suffix|..] == suffix
  }

  /** The characters for which Python's `str.isspace` holds, i.e. the ones `str.strip()` removes. */
  predicate IsSpace(c: char)
  {
    || c == ' '
    || '\t' <= c <= '\r'
    || '\U{1C}' <= c <= '\U{1F}'
    || c == '\U{85}' || c == '\U{A0}' || c == '\U{1680}'
    || '\U{2000}' <= c <= '\U{200A}'
    || c == '\U{2028}' || c == '\U{2029}' || c == '\U{202F}' || c == '\U{205F}' || c == '\U{3000}'
  }

  /** `not s.strip()`: the string is empty or holds only whitespace. */
  predicate IsBlank(s: string)
  {
    forall i :: 0 <= i < |s| ==> IsSpace(s[i])
  }

  lemma BlankAppend(a: string, b: string)
    ensures IsBlank(a + b) <==> IsBlank(a) && IsBlank(b)
  {
    assert forall i :: 0 <= i < |a| ==> a[i] == (a + b)[i];
    assert forall i :: 0 <= i < |b| ==> b[i] == (a + b)[|a| + i];
  }

  /** The index of the last `c` in `s`, or -1 when there is none (`str.rfind`). */
  function LastIndexOf(s: string, c: char): (i: int)
    ensures -1 <= i < |s|
    ensures i >= 0 ==> s[i] == c
    ensures forall j :: i < j < |s| ==> s[j] != c
  {
    if s == [] then -1
    else if s[|s| - 1] == c then |s| - 1
    else LastIndexOf(s[..|s| - 1], c)
  }

  /** The second component of `os.path.splitext(p)`: from the last dot of the last path component to
      the end, unless that dot belongs to a run of leading dots (".bashrc" and "..pdf" have none). */
  function Extension(p: string): string
  {
    var sep := LastIndexOf(p, '/');
    var dot := LastIndexOf(p, '.');
    if dot > sep && exists k :: sep < k < dot && p[k] != '.' then p[dot..] else ""
  }

  /** What `os.path.join(dir, name)` yields for a single component. */
  function JoinPath(dir: string, name: string): string
  {
    if |name| > 0 && name[0] == '/' then name
    else if dir == [] || dir[|dir| - 1] == '/' then dir + name
    else dir + "/" + name
  }

  /** The extension is a suffix of the name, starts with its only dot and holds no separator, and
      the last path component has a character other than a dot in front of it. */
  lemma ExtensionShape(p: string)
    ensures var ext := Extension(p);
      ext == [] || (EndsWith(p, ext) && ext[0] == '.' && '.' !in ext[1..] && '/' !in ext)
    ensures var ext := Extension(p);
      ext != [] ==> exists k :: 0 <= k < |p| - |ext| && p[k] != '.' && forall j :: k <= j < |p| ==> p[j] != '/'
  {
    var ext := Extension(p);
    if ext != [] {
      var dot := LastIndexOf(p, '.');
      var sep := LastIndexOf(p, '/');
      assert ext == p[dot..];
      forall j | 1 <= j < |ext| ensures ext[j] != '.' && ext[j] != '/' {
        assert ext[j] == p[dot + j];
      }
    }
  }

  /** Where the last `c` of `a + b` lies: in `b` if `b` has one, otherwise in `a`. */
  lemma {:induction false} LastIndexOfAppend(a: string, b: string, c: char)
    ensures LastIndexOf(a + b, c) == if LastIndexOf(b, c) >= 0 then |a| + LastIndexOf(b, c) else LastIndexOf(a, c)
    decreases |b|
  {
    if b == [] {
      assert a + b == a;
    } else {
      assert (a + b)[..|a + b| - 1] == a + b[..|b| - 1];
      if b[|b| - 1] != c {
        LastIndexOfAppend(a, b[..|b| - 1], c);
      }
    }
  }

  /** After a separator, the extension of a plain file name is that of the name alone. */
  lemma ExtensionAfterSeparator(pre: string, name: string)
    requires pre != [] && pre[|pre| - 1] == '/' && '/' !in name
    ensures Extension(pre + name) == Extension(name)
  {
    var p := pre + name;
    LastIndexOfAppend(pre, name, '/');
    LastIndexOfAppend(pre, name, '.');
    assert LastIndexOf(name, '/') == -1;
    var sep, dn := |pre| - 1, LastIndexOf(name, '.');
    assert LastIndexOf(p, '/') == sep;
    if dn >= 0 {
      assert LastIndexOf(p, '.') == |pre| + dn;
      assert p[|pre| + dn..] == name[dn..];
      if exists k :: -1 < k < dn && name[k] != '.' {
        var k :| -1 < k < dn && name[k] != '.';
        assert p[|pre| + k] == name[k];
      }
      if exists k :: sep < k < |pre| + dn && p[k] != '.' {
        var k :| sep < k < |pre| + dn && p[k] != '.';
        assert name[k - |pre|] == p[k];
      }
    } else {
      assert LastIndexOf(p, '.') == LastIndexOf(pre, '.');
      assert LastIndexOf(pre, '.') != sep;
    }
  }

  /** Joining a plain file name onto a directory does not change its extension: the directory
      ends before the name's last component starts. */
  lemma ExtensionOfJoin(dir: string, name: string)
    requires name != [] && '/' !in name
    ensures Extension(JoinPath(dir, name)) == Extension(name)
  {
    assert name[0] != '/' by { assert name[0] in name; }
    if dir == [] {
      assert JoinPath(dir, name) == name;
    } else if dir[|dir| - 1] == '/' {
      ExtensionAfterSeparator(dir, name);
    } else {
      assert JoinPath(dir, name) == (dir + "/") + name;
      ExtensionAfterSeparator(dir + "/", name);
    }
  }

  /** The index just past the leading whitespace of `s`. */
  function StripStart(s: string): (a: nat)
    ensures a <= |s|
    ensures forall i :: 0 <= i < a ==> IsSpace(s[i])
    ensures a < |s| ==> !IsSpace(s[a])
  {
    if s == [] || !IsSpace(s[0]) then 0
    else
      var a := StripStart(s[1..]);
      assert forall i :: 1 <= i < 1 + a ==> s[i] == s[1..][i - 1];
      1 + a
  }

  /** The index where the trailing whitespace of `s` starts. */
  function StripEnd(s: string): (b: nat)
    ensures b <= |s|
    ensures forall i :: b <= i < |s| ==> IsSpace(s[i])
    ensures b > 0 ==> !IsSpace(s[b - 1])
  {
    if s == [] || !IsSpace(s[|s| - 1]) then |s|
    else StripEnd(s[..|s| - 1])
  }

  /** `str.strip()`: the middle part of `s` left after removing whitespace from both ends. */
  function Strip(s: string): (r: string)
    ensures r != [] ==> !IsSpace(r[0]) && !IsSpace(r[|r| - 1])
    ensures var a := StripStart(s);
      && a + |r| <= |s| && r == s[a..a + |r|]
      && (forall i :: a + |r| <= i < |s| ==> IsSpace(s[i]))
  {
    var a := StripStart(s);
    var t := s[a..];
    var b := StripEnd(t);
    assert t[..b] == s[a..a + b];
    assert forall i :: a + b <= i < |s| ==> s[i] == t[i - a];
    t[..b]
  }

  /** `not s.strip()` holds exactly when every character of `s` is whitespace. */
  lemma BlankIffStripEmpty(s: string)
    ensures IsBlank(s) <==> Strip(s) == []
  {
    var r, a := Strip(s), StripStart(s);
    if r != [] {
      assert s[a] == r[0];
    }
  }

  /** `str.lower` on ASCII: same length, every capital becomes its small letter, every other
      character is kept, and no capital is left. */
  lemma LowerSpec(s: string)
    ensures var r := Lower(s);
      && |r| == |s|
      && (forall i :: 0 <= i < |s| && 'A' <= s[i] <= 'Z' ==> r[i] as int == s[i] as int - 'A' as int + 'a' as int)
      && (forall i :: 0 <= i < |s| && !('A' <= s[i] <= 'Z') ==> r[i] == s[i])
      && (forall i :: 0 <= i < |r| ==> !('A' <= r[i] <= 'Z'))
  {
  }

  /** `os.path.join(dir, name)`: an absolute name replaces the directory; otherwise the name
      follows the directory, with a '/' inserted only when the directory is non-empty and does not
      already end with one. */
  lemma JoinPathShape(dir: string, name: string)
    ensures var r := JoinPath(dir, name);
      && EndsWith(r, name)
      && (|name| > 0 && name[0] == '/' ==> r == name)
      && (!(|name| > 0 && name[0] == '/') ==>
           dir <= r && |r| - |name| - |dir| == (if dir == [] || dir[|dir| - 1] == '/' then 0 else 1))
      && (!(|name| > 0 && name[0] == '/') && |r| > |name| ==> r[|r| - |name| - 1] == '/')
  {
  }
}
