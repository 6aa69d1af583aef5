/**
 * The parts of Python's `os.path` (POSIX flavour) and of `str(int)` that the
 * augmentation script leans on: joining a directory and a file name,
 * splitting off an extension, and writing a counter in decimal.
 */
module PyPath {

  /** `s.rfind(c)`: the last position of c in s, or -1 when c does not occur. */
  function RFind(s: string, c: char): (r: int)
    ensures -1 <= r < |s|
  {
    if s == [] then -1
    else if s[|s| - 1] == c then |s| - 1
    else RFind(s[..|s| - 1], c)
  }

  /** The position found holds c, and c does not occur after it; -1 means c does not occur at all. */
  lemma {:induction false} RFindLast(s: string, c: char)
    ensures RFind(s, c) >= 0 ==> s[RFind(s, c)] == c
    ensures forall k :: RFind(s, c) < k < |s| ==> s[k] != c
  {
    if s != [] && s[|s| - 1] != c {
      RFindLast(s[..|s| - 1], c);
    }
  }

  /**
   * `os.path.join(dir, name)`: an absolute name replaces the directory; an
   * empty directory or one that already ends in a separator is simply
   * followed by the name; otherwise one separator is put in between.
   */
  function Join(dir: string, name: string): string
  {
    if |name| > 0 && name[0] == '/' then name
    else if dir == [] || dir[|dir| - 1] == '/' then dir + name
    else dir + "/" + name
  }

  /** Every character of s is a dot. */
  predicate AllDots(s: string) {
    forall k :: 0 <= k < |s| ==> s[k] == '.'
  }

  /**
   * `os.path.splitext(p)`: the extension starts at the last dot of the last
   * path component, unless only dots precede that dot within the component
   * (so ".bashrc" and ".." have no extension). Without an extension the
   * whole path is the base and the extension is empty.
   */
  function SplitExt(p: string): (r: (string, string))
    ensures r.0 + r.1 == p
  {
    var sep, dot := RFind(p, '/'), RFind(p, '.');
    if dot > sep && !AllDots(p[sep + 1..dot]) then (p[..dot], p[dot..])
    else (p, [])
  }

  /** `name` is a relative name: `os.path.join` keeps the directory in front of it. */
  predicate IsRelative(name: string) {
    |name| == 0 || name[0] != '/'
  }

  /**
   * Within one directory, distinct relative names give distinct paths: the
   * directory part a join puts in front depends on the directory alone.
   */
  lemma JoinInjective(dir: string, n1: string, n2: string)
    requires IsRelative(n1) && IsRelative(n2)
    ensures Join(dir, n1) == Join(dir, n2) ==> n1 == n2
  {
    var prefix := if dir == [] || dir[|dir| - 1] == '/' then dir else dir + "/";
    assert Join(dir, n1) == prefix + n1 && Join(dir, n2) == prefix + n2;
    if Join(dir, n1) == Join(dir, n2) {
      assert n1 == (prefix + n1)[|prefix|..] && n2 == (prefix + n2)[|prefix|..];
    }
  }

  /**
   * An extension is a dot followed by neither dots nor separators, and the part
   * of the last component before it is not only dots. There is no extension
   * exactly when every dot of the last component has only dots before it.
   */
  lemma SplitExtProperties(p: string)
    ensures var (base, ext) := SplitExt(p);
            var sep := RFind(p, '/');
            (ext != [] ==>
               ext[0] == '.' &&
               (forall k :: 1 <= k < |ext| ==> ext[k] != '.' && ext[k] != '/') &&
               !AllDots(base[sep + 1..])) &&
            (ext == [] ==>
               base == p && forall d :: sep < d < |p| && p[d] == '.' ==> AllDots(p[sep + 1..d]))
  {
    var sep, dot := RFind(p, '/'), RFind(p, '.');
    if dot > sep && !AllDots(p[sep + 1..dot]) {
      ExtensionFound(p, sep, dot);
    } else {
      NoExtension(p, sep, dot);
    }
  }

  /** The split at the last dot, when it is an extension dot. */
  lemma ExtensionFound(p: string, sep: int, dot: int)
    requires sep == RFind(p, '/') && dot == RFind(p, '.')
    requires dot > sep && !AllDots(p[sep + 1..dot])
    ensures var ext := p[dot..];
            ext[0] == '.' &&
            (forall k :: 1 <= k < |ext| ==> ext[k] != '.' && ext[k] != '/') &&
            !AllDots(p[..dot][sep + 1..])
  {
    RFindLast(p, '/');
    RFindLast(p, '.');
    assert p[..dot][sep + 1..] == p[sep + 1..dot];
  }

  /**
   * When the last dot of p lies before its last separator, or only dots precede
   * it in the last component, every dot of the last component has only dots
   * before it.
   */
  lemma NoExtension(p: string, sep: int, dot: int)
    requires sep == RFind(p, '/') && dot == RFind(p, '.')
    requires !(dot > sep && !AllDots(p[sep + 1..dot]))
    ensures forall d :: sep < d < |p| && p[d] == '.' ==> AllDots(p[sep + 1..d])
  {
    RFindLast(p, '.');
    forall d | sep < d < |p| && p[d] == '.'
      ensures AllDots(p[sep + 1..d])
    {
      assert d <= dot;
      var dots := p[sep + 1..dot];
      assert p[sep + 1..d] == dots[..d - (sep + 1)];
      AllDotsPrefix(dots, d - (sep + 1));
    }
  }

  lemma AllDotsPrefix(s: string, n: nat)
    requires AllDots(s) && n <= |s|
    ensures AllDots(s[..n])
  {
  }

  /** The decimal digit for d < 10. */
  function Digit(d: nat): (c: char)
    requires d < 10
    ensures '0' <= c <= '9'
  {
    ('0' as int + d) as char
  }

  /** `str(n)` for a natural number: its decimal digits, most significant first, no leading zero. */
  function NatToString(n: nat): (s: string)
    ensures |s| > 0
    ensures forall k :: 0 <= k < |s| ==> '0' <= s[k] <= '9'
    ensures |s| > 1 ==> s[0] != '0'
  {
    if n < 10 then [Digit(n)]
    else NatToString(n / 10) + [Digit(n % 10)]
  }

  /** The number a string of decimal digits stands for. */
  function ParseDecimal(s: string): nat
    requires forall k :: 0 <= k < |s| ==> '0' <= s[k] <= '9'
  {
    if s == [] then 0
    else ParseDecimal(s[..|s| - 1]) * 10 + (s[|s| - 1] as int - '0' as int)
  }

  /** Reading the digits back gives the number: `int(str(n)) == n`. */
  lemma {:induction false} ParseNatToString(n: nat)
    ensures ParseDecimal(NatToString(n)) == n
  {
    if n >= 10 {
      ParseNatToString(n / 10);
      var s := NatToString(n);
      assert s[..|s| - 1] == NatToString(n / 10);
    }
  }

  /** Distinct numbers are written differently. */
  lemma NatToStringInjective(m: nat, n: nat)
    ensures NatToString(m) == NatToString(n) ==> m == n
  {
    ParseNatToString(m);
    ParseNatToString(n);
  }
}
