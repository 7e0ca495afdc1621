/** Percent-encoding as `urllib.parse.quote(..., safe="")` does it, after UTF-8 (sections 2.1 and 2.3 of RFC 3986). */
module PercentEncoding {
  import opened Prelude

  type Byte = b: int | 0 <= b < 256

  predicate Unreserved(c: char) {
    'A' <= c <= 'Z' || 'a' <= c <= 'z' || '0' <= c <= '9' || c == '-' || c == '.' || c == '_' || c == '~'
  }

  /** Letters, digits, hyphen, period, underscore and tilde, by their codes. */
  lemma UnreservedCodes(b: Byte)
    ensures Unreserved(b as char)
       <==> 0x41 <= b <= 0x5A || 0x61 <= b <= 0x7A || 0x30 <= b <= 0x39 || b in {0x2D, 0x2E, 0x5F, 0x7E}
  {
  }

  /** What can occur in an encoded value. */
  predicate Encoded(s: string) { forall c :: c in s ==> Unreserved(c) || c == '%' }

  function HexDigit(d: int): char
    requires 0 <= d < 16
  {
    if d < 10 then ('0' as int + d) as char else ('A' as int + d - 10) as char
  }

  function HexValue(c: char): Option<int> {
    if '0' <= c <= '9' then Some(c as int - '0' as int)
    else if 'A' <= c <= 'F' then Some(c as int - 'A' as int + 10)
    else if 'a' <= c <= 'f' then Some(c as int - 'a' as int + 10)
    else None
  }

  function QuoteByte(b: Byte): string {
    if Unreserved(b as char) then [b as char] else ['%', HexDigit(b / 16), HexDigit(b % 16)]
  }

  function Quote(bytes: seq<Byte>): string {
    if bytes == [] then "" else QuoteByte(bytes[0]) + Quote(bytes[1..])
  }

  function Unquote(s: string): Option<seq<Byte>> {
    if s == "" then Some([])
    else if s[0] == '%' then
      if |s| < 3 || HexValue(s[1]).None? || HexValue(s[2]).None? then None
      else match Unquote(s[3..])
        case None => None
        case Some(rest) => Some([HexValue(s[1]).value * 16 + HexValue(s[2]).value] + rest)
    else if s[0] as int >= 128 then None
    else match Unquote(s[1..])
      case None => None
      case Some(rest) => Some([s[0] as int] + rest)
  }

  lemma HexRoundTrip(d: int)
    requires 0 <= d < 16
    ensures HexValue(HexDigit(d)) == Some(d)
  {
  }

  lemma UnquoteByte(b: Byte, text: string, rest: seq<Byte>)
    requires Unquote(text) == Some(rest)
    ensures Unquote(QuoteByte(b) + text) == Some([b] + rest)
  {
    hide HexDigit, HexValue;
    var s := QuoteByte(b) + text;
    assert s[|QuoteByte(b)|..] == text;
    HexRoundTrip(b / 16);
    HexRoundTrip(b % 16);
    if Unreserved(b as char) {
      assert s[0] == b as char;
    } else {
      assert s[0] == '%' && s[1] == HexDigit(b / 16) && s[2] == HexDigit(b % 16);
    }
  }

  /** Encoding then decoding is the identity, so encoding loses nothing. */
  lemma {:induction false} QuoteRoundTrip(bytes: seq<Byte>)
    ensures Unquote(Quote(bytes)) == Some(bytes)
  {
    if bytes == [] {
    } else {
      QuoteRoundTrip(bytes[1..]);
      UnquoteByte(bytes[0], Quote(bytes[1..]), bytes[1..]);
      assert bytes == [bytes[0]] + bytes[1..];
    }
  }

  lemma {:induction false} QuoteIsEncoded(bytes: seq<Byte>)
    ensures Encoded(Quote(bytes))
  {
    if bytes == [] {
    } else {
      QuoteIsEncoded(bytes[1..]);
    }
  }
}

/** Filling the path template of an operation (http_tools/builder.py). */
module PathTemplate {
  import opened Prelude
  import opened PercentEncoding

  predicate BraceFree(s: string) { forall i :: 0 <= i < |s| ==> s[i] != '{' && s[i] != '}' }

  function Placeholder(name: string): string { "{" + name + "}" }

  /** Python's `s.replace(what, by)` for a non-empty pattern: leftmost, non-overlapping. */
  function Replace(s: string, what: string, with: string): string
    requires what != ""
  {
    if s == "" then ""
    else if what <= s then with + Replace(s[|what|..], what, with)
    else [s[0]] + Replace(s[1..], what, with)
  }

  /** One pass per name, in the order the set happens to yield them. */
  function FillInOrder(path: string, names: seq<string>, values: map<string, string>): string
    requires forall n :: n in names ==> n in values
  {
    if names == [] then path
    else
      var last := names[|names| - 1];
      Replace(FillInOrder(path, names[..|names| - 1], values), Placeholder(last), values[last])
  }

  function Rendered(args: map<string, seq<Byte>>): map<string, string> { map n | n in args :: Quote(args[n]) }

  /** The substitution loop: `args` holds the arguments already rendered as UTF-8 text. */
  method FillPath(path: string, names: seq<string>, args: map<string, seq<Byte>>) returns (r: Result<string, string>)
    ensures r.Err? <==> exists n :: n in names && n !in args
    ensures r.Err? ==> r.error in names && r.error !in args
    ensures r.Ok? ==> forall n :: n in names ==> n in args
    ensures r.Ok? ==> r.value == FillInOrder(path, names, Rendered(args))
  {
    var formatted := path;
    ghost var values := Rendered(args);
    for i := 0 to |names|
      invariant forall n :: n in names[..i] ==> n in args
      invariant formatted == FillInOrder(path, names[..i], values)
    {
      if names[i] !in args {
        return Err(names[i]);
      }
      assert names[..i + 1][..i] == names[..i];
      formatted := Replace(formatted, Placeholder(names[i]), Quote(args[names[i]]));
    }
    assert names[..|names|] == names;
    return Ok(formatted);
  }

  // ------------------------------------------------ simultaneous filling

  /** Length of the leading run without braces. */
  function Plain(s: string): (k: nat)
    ensures k <= |s| && BraceFree(s[..k])
    ensures k < |s| ==> s[k] == '{' || s[k] == '}'
  {
    if s == "" || s[0] == '{' || s[0] == '}' then 0
    else
      var k := Plain(s[1..]);
      assert forall i :: 1 <= i < k + 1 ==> s[i] == s[1..][..k][i - 1];
      k + 1
  }

  /** The placeholder a text starts with, if it starts with one. */
  function Hole(s: string): (h: Option<string>)
    ensures h.Some? ==> BraceFree(h.value) && Placeholder(h.value) <= s
  {
    if s == "" || s[0] != '{' then None
    else
      var k := Plain(s[1..]);
      if 1 + k < |s| && s[1 + k] == '}' then
        assert s[..k + 2] == Placeholder(s[1..1 + k]) by { assert s[1..][..k] == s[1..1 + k]; }
        Some(s[1..1 + k])
      else None
  }

  /** Every placeholder of the original template is replaced at once; inserted text is not looked at again. */
  function Fill(s: string, m: map<string, string>): string {
    if s == "" then ""
    else if Hole(s).Some? && Hole(s).value in m then m[Hole(s).value] + Fill(s[|Hole(s).value| + 2..], m)
    else [s[0]] + Fill(s[1..], m)
  }

  ghost predicate Usable(m: map<string, string>) {
    forall n :: n in m ==> BraceFree(n) && BraceFree(m[n])
  }

  /** Some bracketed piece of the template other than {n} itself fills in to the name n. */
  predicate Composes(s: string, m: map<string, string>, n: string) {
    exists i, j :: 0 <= i < j < |s| && s[i] == '{' && s[j] == '}' && s[i + 1..j] != n && Fill(s[i + 1..j], m) == n
  }

  lemma CharIsKept(s: string, m: map<string, string>)
    requires s != "" && !(Hole(s).Some? && Hole(s).value in m)
    ensures Fill(s, m) == [s[0]] + Fill(s[1..], m)
  {
  }

  lemma PlaceholderIsHole(s: string, n: string)
    requires BraceFree(n)
    ensures Placeholder(n) <= s <==> Hole(s) == Some(n)
  {
    if Placeholder(n) <= s {
      var k := Plain(s[1..]);
      assert forall i :: 0 <= i < |n| ==> s[1..][i] == Placeholder(n)[i + 1];
      assert s[1..][|n|] == Placeholder(n)[|n| + 1];
      assert forall i :: 0 <= i < k ==> s[1..][i] == s[1..][..k][i];
      assert s[1..1 + |n|] == n;
    }
  }

  lemma {:induction false} PlainIsKept(p: string, t: string, m: map<string, string>)
    requires BraceFree(p)
    ensures Fill(p + t, m) == p + Fill(t, m)
  {
    if p == "" {
      assert p + t == t;
    } else {
      assert (p + t)[1..] == p[1..] + t;
      PlainIsKept(p[1..], t, m);
    }
  }

  lemma {:induction false} ReplaceIsFill(s: string, n: string, v: string)
    requires BraceFree(n)
    ensures Replace(s, Placeholder(n), v) == Fill(s, map[n := v])
  {
    if s == "" {
    } else {
      PlaceholderIsHole(s, n);
      if Placeholder(n) <= s {
        ReplaceIsFill(s[|n| + 2..], n, v);
      } else {
        ReplaceIsFill(s[1..], n, v);
      }
    }
  }

  /**
   * If filled text starts with n and a closing brace, some closing brace of the template ends a piece
   * that fills in to n.
   */
  lemma {:induction false} TraceBack(t: string, m: map<string, string>, n: string) returns (j: nat)
    requires Usable(m) && BraceFree(n) && n + "}" <= Fill(t, m)
    ensures j < |t| && t[j] == '}' && Fill(t[..j], m) == n
  {
    hide Fill;
    FilledHole(t, m, n);
    if Hole(t).Some? && Hole(t).value in m {
      var h := Hole(t).value;
      var k := TraceBack(t[|h| + 2..], m, n[|m[h]|..]);
      j := |h| + 2 + k;
      TakeAfterHole(t, h, k, m);
    } else {
      FilledChar(t, m, n);
      if n == "" {
        PlainIsFixed(t[..0], m);
        return 0;
      }
      var k := TraceBack(t[1..], m, n[1..]);
      j := k + 1;
      TakeAfterChar(t, k, m);
    }
  }

  lemma FilledHole(t: string, m: map<string, string>, n: string)
    requires Usable(m) && n + "}" <= Fill(t, m)
    ensures t != ""
    ensures Hole(t).Some? && Hole(t).value in m ==>
              var v := m[Hole(t).value];
              v <= n && n[|v|..] + "}" <= Fill(t[|Hole(t).value| + 2..], m)
  {
    if Hole(t).Some? && Hole(t).value in m {
      PlainIsPrefix(m[Hole(t).value], Fill(t[|Hole(t).value| + 2..], m), n);
    }
  }

  lemma FilledChar(t: string, m: map<string, string>, n: string)
    requires t != "" && !(Hole(t).Some? && Hole(t).value in m) && n + "}" <= Fill(t, m)
    ensures t[0] == (n + "}")[0] && (n != "" ==> t[0] == n[0] && n[1..] + "}" <= Fill(t[1..], m))
  {
    assert (n + "}")[0] == Fill(t, m)[0];
    assert (n + "}")[1..] <= Fill(t, m)[1..] == Fill(t[1..], m);
    assert n != "" ==> n[1..] + "}" == (n + "}")[1..];
  }

  lemma TakeAfterHole(t: string, h: string, k: nat, m: map<string, string>)
    requires Hole(t) == Some(h) && h in m && |h| + 2 + k <= |t|
    ensures Fill(t[..|h| + 2 + k], m) == m[h] + Fill(t[|h| + 2..][..k], m)
  {
    hide Fill;
    assert t[..|h| + 2 + k] == Placeholder(h) + t[|h| + 2..][..k];
    FillKept(h, t[|h| + 2..][..k], m);
  }

  lemma TakeAfterChar(t: string, k: nat, m: map<string, string>)
    requires 1 + k <= |t| && t[0] != '{' && t[0] != '}'
    ensures Fill(t[..1 + k], m) == [t[0]] + Fill(t[1..][..k], m)
  {
    hide Fill;
    assert t[..1 + k] == [t[0]] + t[1..][..k];
    PlainIsKept([t[0]], t[1..][..k], m);
  }

  lemma PlainIsPrefix(v: string, text: string, n: string)
    requires BraceFree(v) && n + "}" <= v + text
    ensures v <= n && n[|v|..] + "}" <= text
  {
    assert forall i :: 0 <= i < |v| ==> (v + text)[i] == v[i] != '}';
    assert (v + text)[|n|] == (n + "}")[|n|] == '}';
    assert forall i :: 0 <= i < |v| ==> v[i] == (v + text)[i] == (n + "}")[i];
    assert n[|v|..] + "}" == (n + "}")[|v|..] <= (v + text)[|v|..] == text;
  }

  lemma ComposesInSuffix(s: string, m: map<string, string>, n: string, k: nat)
    requires k <= |s| && Composes(s[k..], m, n)
    ensures Composes(s, m, n)
  {
    hide Fill;
    var t := s[k..];
    var i, j :| 0 <= i < j < |t| && t[i] == '{' && t[j] == '}' && t[i + 1..j] != n && Fill(t[i + 1..j], m) == n;
    assert t[i + 1..j] == s[k + i + 1..k + j];
    assert s[k + i] == '{' && s[k + j] == '}';
  }

  /** A copied character does not complete a placeholder for n, unless the template composes n. */
  lemma NoNewHole(s: string, m: map<string, string>, n: string)
    requires Usable(m) && BraceFree(n) && s != "" && Hole(s).None?
    requires Hole([s[0]] + Fill(s[1..], m)) == Some(n)
    ensures Composes(s, m, n)
  {
    hide Fill, Hole;
    var filled := [s[0]] + Fill(s[1..], m);
    assert filled[1..] == Fill(s[1..], m);
    PlaceholderIsHole(filled, n);
    assert filled[0] == Placeholder(n)[0] == '{';
    assert n + "}" == Placeholder(n)[1..] <= filled[1..];
    var k := TraceBack(s[1..], m, n);
    assert s[1..1 + k] == s[1..][..k];
    PlaceholderIsHole(s, n);
    assert s[..k + 2] == Placeholder(s[1..1 + k]);
  }

  /** Filling one more name after the others is the same as filling it with them, unless the others compose it. */
  lemma {:induction false} FillThenFill(s: string, m: map<string, string>, n: string, v: string)
    requires Usable(m) && BraceFree(n) && n !in m && !Composes(s, m, n)
    ensures Fill(Fill(s, m), map[n := v]) == Fill(s, m[n := v])
  {
    hide Fill, Composes;
    if s == "" {
      PlainIsFixed(s, m);
      PlainIsFixed(s, map[n := v]);
      PlainIsFixed(s, m[n := v]);
    } else {
      var next := if Hole(s).Some? then |Hole(s).value| + 2 else 1;
      if Composes(s[next..], m, n) {
        ComposesInSuffix(s, m, n, next);
      }
      FillThenFill(s[next..], m, n, v);
      if Hole(s).None? {
        CharThenFill(s, m, n, v);
      } else {
        HoleThenFill(s, Hole(s).value, s[next..], m, n, v);
      }
    }
  }

  lemma CharThenFill(s: string, m: map<string, string>, n: string, v: string)
    requires Usable(m) && BraceFree(n) && s != "" && Hole(s).None? && !Composes(s, m, n)
    requires Fill(Fill(s[1..], m), map[n := v]) == Fill(s[1..], m[n := v])
    ensures Fill(Fill(s, m), map[n := v]) == Fill(s, m[n := v])
  {
    hide Composes;
    var filled := [s[0]] + Fill(s[1..], m);
    assert filled[1..] == Fill(s[1..], m);
    if Hole(filled) == Some(n) {
      NoNewHole(s, m, n);
    }
  }

  lemma HoleThenFill(s: string, h: string, rest: string, m: map<string, string>, n: string, v: string)
    requires Usable(m) && BraceFree(h) && n !in m && s == Placeholder(h) + rest
    requires Fill(Fill(rest, m), map[n := v]) == Fill(rest, m[n := v])
    ensures Fill(Fill(s, m), map[n := v]) == Fill(s, m[n := v])
  {
    hide Fill;
    FillKept(h, rest, m);
    FillKept(h, rest, m[n := v]);
    if h in m {
      PlainIsKept(m[h], Fill(rest, m), map[n := v]);
    } else {
      FillKept(h, Fill(rest, m), map[n := v]);
    }
  }

  /** Filling a text that starts with a placeholder. */
  lemma FillKept(h: string, rest: string, m: map<string, string>)
    requires BraceFree(h)
    ensures Fill(Placeholder(h) + rest, m) == (if h in m then m[h] else Placeholder(h)) + Fill(rest, m)
  {
    var s := Placeholder(h) + rest;
    PlaceholderIsHole(s, h);
    assert s[|h| + 2..] == rest;
    if h !in m {
      HoleIsKept(s, h, rest, m);
    }
  }

  lemma HoleIsKept(s: string, h: string, rest: string, m: map<string, string>)
    requires BraceFree(h) && s == Placeholder(h) + rest && h !in m
    ensures Fill(s, m) == Placeholder(h) + Fill(rest, m)
  {
    hide Fill;
    PlaceholderIsHole(s, h);
    CharIsKept(s, m);
    assert s[1..] == h + ("}" + rest);
    PlainIsKept(h, "}" + rest, m);
    ClosingIsKept(rest, m);
    assert Placeholder(h) + Fill(rest, m) == "{" + (h + ("}" + Fill(rest, m)));
  }

  lemma ClosingIsKept(rest: string, m: map<string, string>)
    ensures Fill("}" + rest, m) == "}" + Fill(rest, m)
  {
    assert ("}" + rest)[1..] == rest;
  }

  // ---------------------------------------------------- order of filling

  /** One way the set of path parameters can be iterated. */
  ghost predicate Lists(names: seq<string>, m: map<string, string>) {
    Distinct(names) && forall n :: n in names <==> n in m
  }

  function Restrict(m: map<string, string>, names: seq<string>): map<string, string> {
    map n | n in m && n in names :: m[n]
  }

  /** If the filled text has no braces, every placeholder in it was filled, so more values change nothing. */
  lemma {:induction false} FullyFilled(u: string, small: map<string, string>, big: map<string, string>)
    requires BraceFree(Fill(u, small)) && forall n :: n in small ==> n in big && big[n] == small[n]
    ensures Fill(u, big) == Fill(u, small)
  {
    if u == "" {
    } else {
      var next := if Hole(u).Some? && Hole(u).value in small then |Hole(u).value| + 2 else 1;
      var filled := Fill(u[next..], small);
      var head := Fill(u, small)[..|Fill(u, small)| - |filled|];
      assert Fill(u, small) == head + filled;
      assert forall i :: 0 <= i < |filled| ==> filled[i] == Fill(u, small)[|head| + i];
      FullyFilled(u[next..], small, big);
      if next == 1 {
        assert Fill(u, small)[0] == u[0];
      }
    }
  }

  /**
   * Filling name by name, in any order, equals filling all placeholders at once, provided no piece
   * of the template composes one of the names out of the others.
   */
  lemma {:induction false} FillInOrderIsFill(s: string, names: seq<string>, m: map<string, string>)
    requires Usable(m) && Distinct(names) && forall n :: n in names ==> n in m
    requires forall n :: n in m ==> !Composes(s, m - {n}, n)
    ensures FillInOrder(s, names, m) == Fill(s, Restrict(m, names))
  {
    hide Fill, Composes, Replace, BraceFree;
    if names == [] {
      FillNothing(s, Restrict(m, names));
    } else {
      var init, n := names[..|names| - 1], names[|names| - 1];
      FillInOrderIsFill(s, init, m);
      ReplaceIsFill(Fill(s, Restrict(m, init)), n, m[n]);
      assert names == init + [n];
      assert forall i :: 0 <= i < |init| ==> init[i] == names[i];
      if Composes(s, Restrict(m, init), n) {
        ComposesMore(s, Restrict(m, init), m - {n}, n);
      }
      FillThenFill(s, Restrict(m, init), n, m[n]);
      assert Restrict(m, init)[n := m[n]] == Restrict(m, names);
    }
  }

  lemma {:induction false} FillNothing(s: string, m: map<string, string>)
    requires m == map[]
    ensures Fill(s, m) == s
  {
    if s == "" {
    } else {
      FillNothing(s[1..], m);
    }
  }

  lemma ComposesMore(s: string, small: map<string, string>, big: map<string, string>, n: string)
    requires BraceFree(n) && Composes(s, small, n)
    requires forall k :: k in small ==> k in big && big[k] == small[k]
    ensures Composes(s, big, n)
  {
    var i, j :| 0 <= i < j < |s| && s[i] == '{' && s[j] == '}' && s[i + 1..j] != n && Fill(s[i + 1..j], small) == n;
    FullyFilled(s[i + 1..j], small, big);
  }

  // --------------------------------------------- templates safe in every order

  /** A text without its placeholders. */
  function Strip(s: string): string {
    if s == "" then ""
    else if Hole(s).Some? then Strip(s[|Hole(s).value| + 2..])
    else [s[0]] + Strip(s[1..])
  }

  /** A bracketed piece built from plain text and at least one complete placeholder, like `{a{x}}`. */
  predicate NestedAt(s: string, i: nat, j: nat) {
    i < j < |s| && s[i] == '{' && s[j] == '}' && !BraceFree(s[i + 1..j]) && BraceFree(Strip(s[i + 1..j]))
  }

  predicate Nested(s: string) { exists i, j :: 0 <= i < j < |s| && NestedAt(s, i, j) }

  lemma PlainParts(a: string, b: string)
    ensures BraceFree(a + b) <==> BraceFree(a) && BraceFree(b)
  {
    assert forall i :: 0 <= i < |a| ==> (a + b)[i] == a[i];
    assert forall i :: 0 <= i < |b| ==> (a + b)[|a| + i] == b[i];
  }

  lemma {:induction false} FilledMeansStripped(u: string, m: map<string, string>)
    requires BraceFree(Fill(u, m))
    ensures BraceFree(Strip(u))
  {
    hide BraceFree, Fill;
    if u == "" {
      EmptyIsPlain();
    } else if Hole(u).Some? {
      var h := Hole(u).value;
      var rest := u[|h| + 2..];
      assert u == Placeholder(h) + rest;
      FillKept(h, rest, m);
      PlainParts(if h in m then m[h] else Placeholder(h), Fill(rest, m));
      FilledMeansStripped(rest, m);
    } else {
      CharIsKept(u, m);
      PlainParts([u[0]], Fill(u[1..], m));
      FilledMeansStripped(u[1..], m);
      PlainParts([u[0]], Strip(u[1..]));
    }
  }

  lemma EmptyIsPlain()
    ensures BraceFree("")
  {
  }

  lemma {:induction false} PlainIsFixed(u: string, m: map<string, string>)
    requires BraceFree(u)
    ensures Fill(u, m) == u
  {
    if u == "" {
    } else {
      PlainIsFixed(u[1..], m);
    }
  }

  lemma UnnestedComposesNothing(s: string, m: map<string, string>, n: string)
    requires !Nested(s) && BraceFree(n)
    ensures !Composes(s, m, n)
  {
    if i, j :| 0 <= i < j < |s| && s[i] == '{' && s[j] == '}' && s[i + 1..j] != n && Fill(s[i + 1..j], m) == n {
      var u := s[i + 1..j];
      FilledMeansStripped(u, m);
      if BraceFree(u) {
        PlainIsFixed(u, m);
      } else {
        assert NestedAt(s, i, j);
      }
    }
  }

  function Holes(u: string): set<string> {
    if u == "" then {}
    else if Hole(u).Some? then {Hole(u).value} + Holes(u[|Hole(u).value| + 2..])
    else Holes(u[1..])
  }

  function Repeat(c: char, n: nat): string { seq(n, _ => c) }

  /** Values so long that filling anything at all makes a text longer than the template. */
  function LongValues(names: set<string>, n: nat): map<string, string> {
    map h | h in names :: Repeat('a', n)
  }

  lemma {:induction false} FillIsSameOrLong(x: string, names: set<string>, n: nat)
    ensures Fill(x, LongValues(names, n)) == x || |Fill(x, LongValues(names, n))| >= n
  {
    if x != "" && !(Hole(x).Some? && Hole(x).value in names) {
      FillIsSameOrLong(x[1..], names, n);
    }
  }

  /** Filling does not look past the end of a piece whose placeholders are all complete. */
  lemma {:induction false} FillSplits(u: string, t: string, m: map<string, string>)
    requires BraceFree(Strip(u))
    ensures Fill(u + t, m) == Fill(u, m) + Fill(t, m)
  {
    hide Fill;
    if u == "" {
      assert u + t == t;
      PlainIsFixed(u, m);
    } else if Hole(u).Some? {
      var rest := u[|Hole(u).value| + 2..];
      FillSplits(rest, t, m);
      HoleSplits(u, rest, t, m);
    } else {
      assert Strip(u)[0] == u[0];
      assert forall i :: 0 <= i < |Strip(u[1..])| ==> Strip(u[1..])[i] == Strip(u)[i + 1];
      FillSplits(u[1..], t, m);
      assert u == [u[0]] + u[1..] && u + t == [u[0]] + (u[1..] + t);
      PlainIsKept([u[0]], u[1..], m);
      PlainIsKept([u[0]], u[1..] + t, m);
    }
  }

  lemma HoleSplits(u: string, rest: string, t: string, m: map<string, string>)
    requires Hole(u).Some? && rest == u[|Hole(u).value| + 2..]
    requires Fill(rest + t, m) == Fill(rest, m) + Fill(t, m)
    ensures Fill(u + t, m) == Fill(u, m) + Fill(t, m)
  {
    hide Fill;
    var h := Hole(u).value;
    assert u == Placeholder(h) + rest && u + t == Placeholder(h) + (rest + t);
    FillKept(h, rest, m);
    FillKept(h, rest + t, m);
  }

  /** An opening brace starts afresh. */
  lemma {:induction false} FillSplitsAtBrace(a: string, t: string, m: map<string, string>)
    requires t != "" && t[0] == '{'
    ensures Fill(a + t, m) == Fill(a, m) + Fill(t, m)
  {
    if a == "" {
      assert a + t == t;
    } else if Hole(a).Some? {
      var rest := a[|Hole(a).value| + 2..];
      FillSplitsAtBrace(rest, t, m);
      HoleSplits(a, rest, t, m);
    } else {
      FillSplitsAtBrace(a[1..], t, m);
      CharSplits(a, t, m);
    }
  }

  lemma CharSplits(a: string, t: string, m: map<string, string>)
    requires a != "" && t != "" && t[0] == '{' && Hole(a).None?
    requires Fill(a[1..] + t, m) == Fill(a[1..], m) + Fill(t, m)
    ensures Fill(a + t, m) == Fill(a, m) + Fill(t, m)
  {
    hide Hole, Fill;
    NoHoleBeforeBrace(a, t);
    CharIsKept(a, m);
    CharIsKept(a + t, m);
    assert (a + t)[1..] == a[1..] + t;
  }

  lemma NoHoleBeforeBrace(a: string, t: string)
    requires a != "" && t != "" && t[0] == '{' && Hole(a).None?
    ensures Hole(a + t).None?
  {
    if Hole(a + t).Some? {
      var h := Hole(a + t).value;
      assert (a + t)[..|h| + 2] == Placeholder(h);
      assert |h| + 2 <= |a| by {
        assert (a + t)[|a|] == '{';
        assert forall i :: 1 <= i < |h| + 2 ==> (a + t)[i] == Placeholder(h)[i];
      }
      assert Placeholder(h) <= a;
      PlaceholderIsHole(a, h);
    }
  }

  lemma {:induction false} StrippedIsFillable(u: string, n: nat, names: set<string>)
    requires BraceFree(Strip(u)) && Holes(u) <= names
    ensures BraceFree(Fill(u, LongValues(names, n)))
    ensures !BraceFree(u) ==> |Fill(u, LongValues(names, n))| >= n && Holes(u) != {}
  {
    if u == "" {
    } else {
      var m := LongValues(names, n);
      if Hole(u).Some? {
        StrippedIsFillable(u[|Hole(u).value| + 2..], n, names);
      } else {
        assert Strip(u)[0] == u[0];
        assert forall i :: 0 <= i < |Strip(u[1..])| ==> Strip(u[1..])[i] == Strip(u)[i + 1];
        StrippedIsFillable(u[1..], n, names);
        assert BraceFree(u[1..]) ==> forall i :: 1 <= i < |u| ==> u[i] == u[1..][i - 1];
      }
    }
  }

  lemma {:induction false} HolesArePlain(u: string, h: string)
    requires h in Holes(u)
    ensures BraceFree(h) && |h| < |u|
  {
    if Hole(u) != Some(h) {
      HolesArePlain(if Hole(u).Some? then u[|Hole(u).value| + 2..] else u[1..], h);
    }
  }

  function Opens(s: string): nat {
    if s == "" then 0 else Opens(s[1..]) + (if s[0] == '{' then 1 else 0)
  }

  lemma {:induction false} OpensOfPlain(p: string, t: string)
    requires BraceFree(p)
    ensures Opens(p + t) == Opens(t)
  {
    if p == "" {
      assert p + t == t;
    } else {
      assert (p + t)[1..] == p[1..] + t;
      OpensOfPlain(p[1..], t);
    }
  }

  lemma OpensOfHole(h: string, rest: string)
    requires BraceFree(h)
    ensures Opens(Placeholder(h) + rest) == Opens(rest) + 1
  {
    assert (Placeholder(h) + rest)[1..] == h + ("}" + rest);
    OpensOfPlain(h, "}" + rest);
    assert ("}" + rest)[1..] == rest;
  }

  lemma OpensOfChar(t: string, rest: string)
    requires t != ""
    ensures Opens([t[0]] + rest) == Opens(rest) + if t[0] == '{' then 1 else 0
  {
    assert ([t[0]] + rest)[1..] == rest;
  }

  /** A placeholder that is filled takes an opening brace with it. */
  lemma {:induction false} FillingLosesBraces(t: string, m: map<string, string>, p: nat)
    requires Usable(m) && p <= |t|
    ensures Opens(Fill(t, m)) <= Opens(t)
    ensures Hole(t[p..]).Some? && Hole(t[p..]).value in m ==> Opens(Fill(t, m)) < Opens(t)
  {
    hide Fill, Opens, BraceFree;
    if t == "" {
      EmptyIsPlain();
      PlainIsFixed(t, m);
    } else if Hole(t).Some? && Hole(t).value in m {
      var h := Hole(t).value;
      var rest := t[|h| + 2..];
      assert t == Placeholder(h) + rest;
      FillingLosesBraces(rest, m, 0);
      FillKept(h, rest, m);
      OpensOfPlain(m[h], Fill(rest, m));
      OpensOfHole(h, rest);
    } else {
      var rest := t[1..];
      assert t == [t[0]] + rest && (p > 0 ==> rest[p - 1..] == t[p..]);
      assert p == 0 ==> t[p..] == t;
      FillingLosesBraces(rest, m, if p == 0 then 0 else p - 1);
      CharIsKept(t, m);
      OpensOfChar(t, rest);
      OpensOfChar(t, Fill(rest, m));
    }
  }

  lemma {:induction false} TooLongToFind(s: string, what: string, with: string)
    requires |what| > |s|
    ensures Replace(s, what, with) == s
  {
    if s == "" {
    } else {
      TooLongToFind(s[1..], what, with);
    }
  }

  lemma {:induction false} Listing(names: set<string>) returns (list: seq<string>)
    ensures Distinct(list) && forall n :: n in list <==> n in names
  {
    if names == {} {
      list := [];
    } else {
      var x :| x in names;
      var rest := Listing(names - {x});
      list := rest + [x];
      assert forall i :: 0 <= i < |rest| ==> rest[i] in names - {x};
    }
  }

  lemma {:induction false} FirstBraceOpens(u: string, t: string)
    requires BraceFree(Strip(u)) && !BraceFree(u)
    ensures Plain(u + t) < |u| && u[Plain(u + t)] == '{'
  {
    assert (u + t)[0] == u[0];
    if u[0] == '{' || u[0] == '}' {
      assert Hole(u).None? ==> Strip(u)[0] == u[0];
    } else {
      assert Strip(u)[0] == u[0];
      assert forall i :: 0 <= i < |Strip(u[1..])| ==> Strip(u[1..])[i] == Strip(u)[i + 1];
      assert BraceFree(u[1..]) ==> forall i :: 1 <= i < |u| ==> u[i] == u[1..][i - 1];
      assert (u + t)[1..] == u[1..] + t;
      FirstBraceOpens(u[1..], t);
    }
  }

  lemma {:induction false} InTwoParts(s: string, first: seq<string>, second: seq<string>, m: map<string, string>)
    requires forall n :: n in first + second ==> n in m
    ensures (forall n :: n in first ==> n in m) && forall n :: n in second ==> n in m
    ensures FillInOrder(s, first + second, m) == FillInOrder(FillInOrder(s, first, m), second, m)
  {
    assert forall n :: n in first || n in second ==> n in first + second;
    if second == [] {
      assert first + second == first;
    } else {
      var init := second[..|second| - 1];
      assert (first + second)[..|first + second| - 1] == first + init;
      InTwoParts(s, first, init, m);
    }
  }

  lemma {:induction false} SameValues(s: string, names: seq<string>, m1: map<string, string>, m2: map<string, string>)
    requires forall n :: n in names ==> n in m1 && n in m2 && m1[n] == m2[n]
    ensures FillInOrder(s, names, m1) == FillInOrder(s, names, m2)
  {
    if names == [] {
    } else {
      SameValues(s, names[..|names| - 1], m1, m2);
    }
  }

  /** Arguments as the builder hands them over: brace-free names, percent-encoded values. */
  ghost predicate Arguments(m: map<string, string>) { forall n :: n in m ==> BraceFree(n) && Encoded(m[n]) }

  /** The iteration order of the parameter set cannot be observed, whatever the arguments are. */
  ghost predicate OrderIrrelevant(s: string) {
    forall m, a, b :: Arguments(m) && Lists(a, m) && Lists(b, m) ==> FillInOrder(s, a, m) == FillInOrder(s, b, m)
  }

  lemma ArgumentsAreUsable(m: map<string, string>)
    requires Arguments(m)
    ensures Usable(m)
  {
    forall n, i | n in m && 0 <= i < |m[n]| ensures m[n][i] != '{' && m[n][i] != '}' {
      assert m[n][i] in m[n];
    }
  }

  /** Filling one parameter after the other is simultaneous substitution unless the template nests placeholders. */
  lemma FillingIsSimultaneous(s: string, names: seq<string>, m: map<string, string>)
    requires Arguments(m) && Lists(names, m) && !Nested(s)
    ensures FillInOrder(s, names, m) == Fill(s, m)
  {
    ArgumentsAreUsable(m);
    forall n | n in m ensures !Composes(s, m - {n}, n) {
      UnnestedComposesNothing(s, m - {n}, n);
    }
    FillInOrderIsFill(s, names, m);
    assert Restrict(m, names) == m;
  }

  lemma LongValuesComposeNothing(s: string, names: set<string>, n: string)
    requires |n| <= |s|
    ensures !Composes(s, LongValues(names, |s| + 1), n)
  {
    if i, j :| 0 <= i < j < |s| && s[i] == '{' && s[j] == '}' && s[i + 1..j] != n
               && Fill(s[i + 1..j], LongValues(names, |s| + 1)) == n {
      FillIsSameOrLong(s[i + 1..j], names, |s| + 1);
    }
  }

  /** Filling a nested piece leaves a new placeholder behind. */
  lemma NestedLeavesHole(s: string, i: nat, j: nat, m: map<string, string>) returns (at: nat)
    requires NestedAt(s, i, j) && BraceFree(Fill(s[i + 1..j], m))
    ensures at <= |Fill(s, m)| && Hole(Fill(s, m)[at..]) == Some(Fill(s[i + 1..j], m))
  {
    var u, rest := s[i + 1..j], s[j + 1..];
    var t := "{" + (u + ("}" + rest));
    assert s == s[..i] + t;
    FillSplitsAtBrace(s[..i], t, m);
    assert t[1..] == u + ("}" + rest);
    FirstBraceOpens(u, "}" + rest);
    assert Hole(t).None?;
    FillSplits(u, "}" + rest, m);
    assert ("}" + rest)[1..] == rest;
    var name := Fill(u, m);
    at := |Fill(s[..i], m)|;
    assert Fill(s, m)[at..] == "{" + (name + ("}" + Fill(rest, m)));
    assert Placeholder(name) <= Fill(s, m)[at..];
    PlaceholderIsHole(Fill(s, m)[at..], name);
  }

  lemma LongValuesAreUsable(names: set<string>, n: nat)
    requires forall h :: h in names ==> BraceFree(h)
    ensures Arguments(LongValues(names, n)) && Usable(LongValues(names, n))
  {
    ArgumentsAreUsable(LongValues(names, n));
  }

  lemma OthersComposeNothing(s: string, names: set<string>, h: string)
    requires |h| <= |s|
    ensures !Composes(s, LongValues(names, |s| + 1) - {h}, h)
  {
    hide Composes;
    LongValuesComposeNothing(s, names - {h}, h);
    assert LongValues(names, |s| + 1) - {h} == LongValues(names - {h}, |s| + 1);
  }

  lemma LongValuesFillAtOnce(s: string, list: seq<string>, names: set<string>)
    requires Distinct(list) && forall n :: n in list <==> n in names
    requires forall n :: n in names ==> BraceFree(n) && |n| <= |s|
    ensures FillInOrder(s, list, LongValues(names, |s| + 1)) == Fill(s, LongValues(names, |s| + 1))
  {
    hide Fill, FillInOrder, Composes, BraceFree, Usable, Replace;
    var m := LongValues(names, |s| + 1);
    LongValuesAreUsable(names, |s| + 1);
    forall h | h in names ensures !Composes(s, m - {h}, h) {
      OthersComposeNothing(s, names, h);
    }
    FillInOrderIsFill(s, list, m);
    assert Restrict(m, list) == m;
  }

  /** Two orders of one filling: the composed name first changes nothing, last it finds the hole the others left. */
  lemma FirstAndLast(s: string, list: seq<string>, name: string, others: map<string, string>, at: nat)
    requires name !in list && (forall n :: n in list <==> n in others) && BraceFree(name) && |name| > |s|
    requires FillInOrder(s, list, others) == Fill(s, others)
    requires at <= |Fill(s, others)| && Hole(Fill(s, others)[at..]) == Some(name)
    ensures FillInOrder(s, [name] + list, others[name := "b"]) != FillInOrder(s, list + [name], others[name := "b"])
  {
    hide Fill;
    var m, filled := others[name := "b"], Fill(s, others);
    SameValues(s, list, others, m);
    InTwoParts(s, [name], list, m);
    assert FillInOrder(s, [name], m) == Replace(s, Placeholder(name), "b") by { assert [name][..0] == []; }
    TooLongToFind(s, Placeholder(name), "b");
    assert (list + [name])[..|list|] == list;
    ReplaceIsFill(filled, name, "b");
    FillingLosesBraces(filled, map[name := "b"], at);
  }

  lemma BothOrdersList(list: seq<string>, name: string, others: map<string, string>)
    requires Arguments(others) && Lists(list, others) && BraceFree(name) && name !in list
    ensures Arguments(others[name := "b"])
    ensures Lists([name] + list, others[name := "b"]) && Lists(list + [name], others[name := "b"])
  {
  }

  lemma NestingShowsOrder(s: string, i: nat, j: nat)
    requires NestedAt(s, i, j)
    ensures !OrderIrrelevant(s)
  {
    hide Fill, FillInOrder, Strip, Hole, Holes, Replace;
    var u := s[i + 1..j];
    var holes := Holes(u);
    var others := LongValues(holes, |s| + 1);
    StrippedIsFillable(u, |s| + 1, holes);
    var name := Fill(u, others);
    forall h | h in holes ensures BraceFree(h) && |h| < |s| {
      HolesArePlain(u, h);
    }
    var list := Listing(holes);
    LongValuesFillAtOnce(s, list, holes);
    var at := NestedLeavesHole(s, i, j, others);
    FirstAndLast(s, list, name, others, at);
    assert name !in list by { assert |name| > |s|; }
    BothOrdersList(list, name, others);
  }

  /** The set order is invisible exactly when no bracketed piece of the template holds further placeholders. */
  lemma OrderIrrelevantIffNotNested(s: string)
    ensures OrderIrrelevant(s) <==> !Nested(s)
  {
    if Nested(s) {
      var i, j :| 0 <= i < j < |s| && NestedAt(s, i, j);
      NestingShowsOrder(s, i, j);
    } else {
      forall m, a, b | Arguments(m) && Lists(a, m) && Lists(b, m) ensures FillInOrder(s, a, m) == FillInOrder(s, b, m) {
        FillingIsSimultaneous(s, a, m);
        FillingIsSimultaneous(s, b, m);
      }
    }
  }

  lemma ExampleInnerFirst()
    ensures Replace(Replace("{a{x}}", "{x}", "b"), "{ab}", "c") == "c"
  {
    assert Replace("{a{x}}", "{x}", "b") == "{ab}" by {
      var s := "{a{x}}";
      assert s[1..] == "a{x}}" && s[1..][1..] == "{x}}" && "{x}}"[3..] == "}" && "}"[1..] == "";
      assert Replace("}", "{x}", "b") == "}";
      assert Replace("{x}}", "{x}", "b") == "b}";
      assert Replace("a{x}}", "{x}", "b") == "ab}";
    }
    assert "{ab}"[4..] == "";
  }

  lemma ExampleOuterFirst()
    ensures Replace(Replace("{a{x}}", "{ab}", "c"), "{x}", "b") == "{ab}"
  {
    var s := "{a{x}}";
    assert s[1..] == "a{x}}" && s[1..][1..] == "{x}}" && "{x}}"[1..] == "x}}" && "{x}}"[3..] == "}";
    assert Replace(s, "{ab}", "c") == s by {
      TooLongToFind("x}}", "{ab}", "c");
      assert Replace("{x}}", "{ab}", "c") == "{x}}";
      assert Replace("a{x}}", "{ab}", "c") == "a{x}}";
    }
    assert Replace("}", "{x}", "b") == "}";
    assert Replace("{x}}", "{x}", "b") == "b}";
    assert Replace("a{x}}", "{x}", "b") == "ab}";
  }

  /** The order is observable for a template like this one: `{ab}` appears once {x} is filled with b. */
  lemma NestedExample(values: map<string, string>)
    requires values == map["x" := "b", "ab" := "c"]
    ensures FillInOrder("{a{x}}", ["x", "ab"], values) == "c"
    ensures FillInOrder("{a{x}}", ["ab", "x"], values) == "{ab}"
  {
    hide Replace;
    ExampleInnerFirst();
    ExampleOuterFirst();
    assert ["x", "ab"][..1] == ["x"] && ["ab", "x"][..1] == ["ab"] && ["x"][..0] == [] && ["ab"][..0] == [];
    assert Placeholder("x") == "{x}" && Placeholder("ab") == "{ab}";
    assert FillInOrder("{a{x}}", ["x"], values) == Replace("{a{x}}", "{x}", "b");
    assert FillInOrder("{a{x}}", ["ab"], values) == Replace("{a{x}}", "{ab}", "c");
  }

  // ------------------------------------------------------- path segments

  function Slashes(s: string): nat {
    if s == "" then 0 else (if s[0] == '/' then 1 else 0) + Slashes(s[1..])
  }

  /** The placeholders of the template that a value is given for. */
  function Filled(s: string, m: map<string, string>): set<string> {
    Holes(s) * m.Keys
  }

  lemma {:induction false} SlashesAdd(a: string, b: string)
    ensures Slashes(a + b) == Slashes(a) + Slashes(b)
  {
    if a == "" {
      assert a + b == b;
    } else {
      assert (a + b)[1..] == a[1..] + b;
      SlashesAdd(a[1..], b);
    }
  }

  lemma {:induction false} NoSlash(s: string)
    ensures Slashes(s) == 0 <==> '/' !in s
  {
    if s == "" {
    } else {
      NoSlash(s[1..]);
      assert s == [s[0]] + s[1..];
    }
  }

  lemma PlaceholderSlashes(h: string)
    ensures Slashes(Placeholder(h)) == Slashes(h)
  {
    SlashesAdd("{" + h, "}");
    SlashesAdd("{", h);
  }

  /** The filled path has as many segments as the template, exactly when no filled name contains a slash. */
  lemma {:induction false} SegmentsKeptExactly(s: string, m: map<string, string>)
    requires Arguments(m)
    ensures Slashes(Fill(s, m)) <= Slashes(s)
    ensures Slashes(Fill(s, m)) == Slashes(s) <==> forall n :: n in Filled(s, m) ==> '/' !in n
  {
    if s == "" {
    } else {
      if Hole(s).Some? {
        var h := Hole(s).value;
        SegmentsKeptExactly(s[|h| + 2..], m);
        HoleSegments(s, h, s[|h| + 2..], m);
      } else {
        SegmentsKeptExactly(s[1..], m);
        CharIsKept(s, m);
        assert Fill(s, m)[1..] == Fill(s[1..], m);
      }
    }
  }

  lemma HoleSegments(s: string, h: string, rest: string, m: map<string, string>)
    requires Arguments(m) && BraceFree(h) && s == Placeholder(h) + rest
    ensures Slashes(s) == Slashes(h) + Slashes(rest)
    ensures Slashes(Fill(s, m)) == (if h in m then 0 else Slashes(h)) + Slashes(Fill(rest, m))
    ensures Slashes(h) == 0 <==> '/' !in h
  {
    hide Fill;
    SlashesAdd(Placeholder(h), rest);
    PlaceholderSlashes(h);
    NoSlash(h);
    FillKept(h, rest, m);
    if h in m {
      NoSlash(m[h]);
      SlashesAdd(m[h], Fill(rest, m));
    } else {
      SlashesAdd(Placeholder(h), Fill(rest, m));
    }
  }

  /** In every order, and for every template, the path keeps its segments when no parameter name has a slash. */
  lemma {:induction false} SegmentsKeptInOrder(s: string, names: seq<string>, m: map<string, string>)
    requires Arguments(m) && forall n :: n in names ==> n in m && '/' !in n
    ensures Slashes(FillInOrder(s, names, m)) == Slashes(s)
  {
    if names == [] {
    } else {
      var init, n := names[..|names| - 1], names[|names| - 1];
      SegmentsKeptInOrder(s, init, m);
      ReplaceIsFill(FillInOrder(s, init, m), n, m[n]);
      SegmentsKeptExactly(FillInOrder(s, init, m), map[n := m[n]]);
    }
  }
}

/** Reading a response under the 10 MiB cap (http_tools/builder.py). */
module ResponseBody {
  import opened Prelude
  import opened PercentEncoding

  const MAX_RESPONSE_BYTES: nat := 10 * 1024 * 1024

  /** `pulled` is the number of chunks taken from the stream; the cap is noticed on the first chunk that exceeds it. */
  method ReadBodyWithSizeCap(chunks: seq<seq<Byte>>) returns (r: Result<seq<Byte>, string>, pulled: nat)
    ensures r.Ok? <==> |Join(chunks)| <= MAX_RESPONSE_BYTES
    ensures r.Ok? ==> r.value == Join(chunks) && pulled == |chunks|
    ensures r.Err? ==> 0 < pulled <= |chunks|
                       && |Join(chunks[..pulled - 1])| <= MAX_RESPONSE_BYTES < |Join(chunks[..pulled])|
  {
    var body: seq<Byte>, total := [], 0;
    for i := 0 to |chunks|
      invariant body == Join(chunks[..i]) && total == |body| <= MAX_RESPONSE_BYTES
    {
      assert chunks[..i + 1][..i] == chunks[..i];
      total := total + |chunks[i]|;
      if total > MAX_RESPONSE_BYTES {
        JoinGrows(chunks, i + 1);
        return Err("response exceeds 10MiB"), i + 1;
      }
      body := body + chunks[i];
    }
    assert chunks[..|chunks|] == chunks;
    return Ok(body), |chunks|;
  }
}
