/**
 The lexical path functions of Go that the archive index relies on: strings.Split on "/",
 path.Clean and path.Join (filepath.Clean is the same function on Unix). They are written out
 because the strip prefix is compared with a cleaned name as a string.
 */
module Paths {
  /** strings.Split(s, "/"): never empty, a lone "" for the empty string. */
  function Split(s: string): (parts: seq<string>)
    ensures |parts| >= 1
    ensures forall k :: 0 <= k < |parts| ==> '/' !in parts[k]
  {
    if s == "" then [""]
    else
      var rest := Split(s[1..]);
      if s[0] == '/' then [""] + rest else [[s[0]] + rest[0]] + rest[1..]
  }

  /** strings.Join(parts, "/"). */
  function JoinSlash(parts: seq<string>): string {
    if |parts| == 0 then ""
    else if |parts| == 1 then parts[0]
    else parts[0] + "/" + JoinSlash(parts[1..])
  }

  lemma {:induction false} SplitThenJoin(s: string)
    ensures JoinSlash(Split(s)) == s
  {
    if s != "" {
      SplitThenJoin(s[1..]);
      var rest := Split(s[1..]);
      if s[0] == '/' {
        assert ([""] + rest)[1..] == rest;
      } else {
        assert ([[s[0]] + rest[0]] + rest[1..])[1..] == rest[1..];
      }
    }
  }

  /** Splitting a string at its first slash peels off exactly one component. */
  lemma {:induction false} SplitFirst(head: string, rest: string)
    requires '/' !in head
    ensures Split(head + "/" + rest) == [head] + Split(rest)
  {
    var s := head + "/" + rest;
    if head == "" {
      assert s[1..] == rest;
    } else {
      assert s[1..] == head[1..] + "/" + rest;
      SplitFirst(head[1..], rest);
      assert head == [head[0]] + head[1..];
    }
  }

  lemma {:induction false} SplitNoSlash(s: string)
    requires '/' !in s
    ensures Split(s) == [s]
  {
    if s != "" {
      SplitNoSlash(s[1..]);
      assert s == [s[0]] + s[1..];
    }
  }

  lemma {:induction false} JoinThenSplit(parts: seq<string>)
    requires |parts| >= 1
    requires forall k :: 0 <= k < |parts| ==> '/' !in parts[k]
    ensures Split(JoinSlash(parts)) == parts
  {
    if |parts| == 1 {
      SplitNoSlash(parts[0]);
    } else {
      JoinThenSplit(parts[1..]);
      SplitFirst(parts[0], JoinSlash(parts[1..]));
      assert parts == [parts[0]] + parts[1..];
    }
  }

  /** A component that path.Clean keeps as it is. */
  predicate Plain(part: string) {
    part != "" && part != "." && part != ".." && '/' !in part
  }

  predicate AllPlain(parts: seq<string>) {
    forall k :: 0 <= k < |parts| ==> Plain(parts[k])
  }

  /** What one component does to the components kept so far. */
  function CleanOne(rooted: bool, done: seq<string>, part: string): seq<string> {
    if part == "" || part == "." then done
    else if part == ".." then
      if |done| > 0 && done[|done| - 1] != ".." then done[..|done| - 1]
      else if rooted then done
      else done + [part]
    else done + [part]
  }

  /** The components path.Clean keeps, after those in `done`. */
  function CleanFrom(rooted: bool, parts: seq<string>, done: seq<string>): seq<string>
    decreases |parts|
  {
    if |parts| == 0 then done else CleanFrom(rooted, parts[1..], CleanOne(rooted, done, parts[0]))
  }

  /** path.Clean. */
  function Clean(p: string): string {
    if p == "" then "."
    else
      var rooted := p[0] == '/';
      var body := JoinSlash(CleanFrom(rooted, Split(p), []));
      if rooted then "/" + body else if body == "" then "." else body
  }

  /** path.Join of two elements: empty elements are ignored, the result is cleaned. */
  function Join(a: string, b: string): string {
    if a == "" && b == "" then ""
    else if a == "" then Clean(b)
    else if b == "" then Clean(a)
    else Clean(a + "/" + b)
  }

  lemma {:induction false} CleanFromPlain(rooted: bool, parts: seq<string>, done: seq<string>)
    requires AllPlain(parts)
    ensures CleanFrom(rooted, parts, done) == done + parts
    decreases |parts|
  {
    if |parts| > 0 {
      CleanFromPlain(rooted, parts[1..], done + [parts[0]]);
    }
  }

  lemma {:induction false} CleanFromConcat(rooted: bool, a: seq<string>, b: seq<string>, done: seq<string>)
    ensures CleanFrom(rooted, a + b, done) == CleanFrom(rooted, b, CleanFrom(rooted, a, done))
    decreases |a|
  {
    if a == [] {
      assert a + b == b;
    } else {
      assert (a + b)[0] == a[0] && (a + b)[1..] == a[1..] + b;
      CleanFromConcat(rooted, a[1..], b, CleanOne(rooted, done, a[0]));
    }
  }

  // ----- Cleaning, component by component -----

  /** The components of some text: at least one, and no slash inside. */
  predicate Components(raw: seq<string>) {
    |raw| >= 1 && forall k :: 0 <= k < |raw| ==> '/' !in raw[k]
  }

  lemma {:induction false} CleanText(raw: seq<string>)
    requires Components(raw) && raw != [""]
    ensures var rooted := raw[0] == "";
            var body := JoinSlash(CleanFrom(rooted, raw, []));
            Clean(JoinSlash(raw)) == if rooted then "/" + body else if body == "" then "." else body
  {
    hide CleanFrom;
    var p := JoinSlash(raw);
    assert Split(p) == raw by { JoinThenSplit(raw); }
    assert p != "" && (p[0] == '/' <==> raw[0] == "") by {
      if raw[0] != "" { assert raw[0][0] in raw[0]; }
    }
  }

  lemma {:induction false} NoiseIsSkipped(rooted: bool, noise: string, done: seq<string>)
    requires noise == "" || noise == "."
    ensures CleanFrom(rooted, [noise], done) == done
  {
    assert [noise][1..] == [];
  }

  /** Empty components and "." vanish, wherever they stand behind the first; a trailing slash is one case. */
  lemma {:induction false} CleanSkips(a: seq<string>, noise: string, b: seq<string>)
    requires Components(a) && (b == [] || Components(b)) && a + b != [""] && (noise == "" || noise == ".")
    ensures Clean(JoinSlash(a + [noise] + b)) == Clean(JoinSlash(a + b))
  {
    hide Clean, JoinSlash;
    var rooted := a[0] == "";
    CleanText(a + [noise] + b);
    CleanText(a + b);
    CleanFromConcat(rooted, a + [noise], b, []);
    CleanFromConcat(rooted, a, [noise], []);
    CleanFromConcat(rooted, a, b, []);
    NoiseIsSkipped(rooted, noise, CleanFrom(rooted, a, []));
  }

  /** A leading "." vanishes before a relative path. */
  lemma {:induction false} CleanLeadingDot(b: seq<string>)
    requires Components(b) && b[0] != ""
    ensures Clean(JoinSlash(["."] + b)) == Clean(JoinSlash(b))
  {
    hide Clean, JoinSlash;
    CleanText(["."] + b);
    CleanText(b);
    CleanFromConcat(false, ["."], b, []);
    NoiseIsSkipped(false, ".", []);
  }

  lemma {:induction false} ParentIsDropped(rooted: bool, s: string, done: seq<string>)
    requires Plain(s)
    ensures CleanFrom(rooted, [s, ".."], done) == done
  {
    assert [s, ".."][1..] == [".."] && [".."][1..] == [];
    assert (done + [s])[..|done|] == done;
    assert CleanFrom(rooted, [s, ".."], done) == CleanFrom(rooted, [".."], done + [s]);
  }

  /** ".." drops the component before it. */
  lemma {:induction false} CleanDrops(a: seq<string>, s: string, b: seq<string>)
    requires Components(a) && Plain(s) && (b == [] || Components(b)) && a + b != [""]
    ensures Clean(JoinSlash(a + [s, ".."] + b)) == Clean(JoinSlash(a + b))
  {
    hide Clean, JoinSlash;
    var rooted := a[0] == "";
    CleanText(a + [s, ".."] + b);
    CleanText(a + b);
    CleanFromConcat(rooted, a + [s, ".."], b, []);
    CleanFromConcat(rooted, a, [s, ".."], []);
    CleanFromConcat(rooted, a, b, []);
    ParentIsDropped(rooted, s, CleanFrom(rooted, a, []));
  }

  /** At the root ".." vanishes. */
  lemma {:induction false} CleanAboveRoot(b: seq<string>)
    requires Components(b)
    ensures Clean(JoinSlash(["", ".."] + b)) == Clean(JoinSlash([""] + b))
  {
    hide Clean, JoinSlash;
    CleanText(["", ".."] + b);
    CleanText([""] + b);
    assert ["", ".."] == [""] + [".."] && [""] + [".."] + b == ["", ".."] + b;
    CleanFromConcat(true, [""] + [".."], b, []);
    CleanFromConcat(true, [""], [".."], []);
    CleanFromConcat(true, [""], b, []);
    NoiseIsSkipped(true, "", []);
    assert [".."][1..] == [];
  }

  lemma {:induction false} ClimbsStay(ups: seq<string>, done: seq<string>)
    requires (forall k :: 0 <= k < |ups| ==> ups[k] == "..") && forall k :: 0 <= k < |done| ==> done[k] == ".."
    ensures CleanFrom(false, ups, done) == done + ups
    decreases |ups|
  {
    if ups != [] {
      ClimbsStay(ups[1..], done + [ups[0]]);
      assert done + [ups[0]] + ups[1..] == done + ups;
    }
  }

  /** A relative path that climbs first and then descends through plain components stays as it is. */
  lemma {:induction false} CleanClimbs(ups: seq<string>, segs: seq<string>)
    requires (forall k :: 0 <= k < |ups| ==> ups[k] == "..") && AllPlain(segs) && ups + segs != []
    ensures Clean(JoinSlash(ups + segs)) == JoinSlash(ups + segs)
  {
    var raw := ups + segs;
    assert Components(raw) && raw[0] != "";
    CleanText(raw);
    CleanFromConcat(false, ups, segs, []);
    ClimbsStay(ups, []);
    CleanFromPlain(false, segs, ups);
    assert [] + ups == ups;
    assert JoinSlash(raw) != "" by { assert |raw[0]| >= 1; }
  }

  /** A rooted path of plain components stays as it is. */
  lemma {:induction false} CleanRooted(segs: seq<string>)
    requires AllPlain(segs) && segs != []
    ensures Clean(JoinSlash([""] + segs)) == JoinSlash([""] + segs)
  {
    CleanText([""] + segs);
    CleanFromConcat(true, [""], segs, []);
    NoiseIsSkipped(true, "", []);
    CleanFromPlain(true, segs, []);
    assert [] + segs == segs && ([""] + segs)[1..] == segs;
  }

  /** The components that mean something in a path without "..". */
  function Spelled(raw: seq<string>): seq<string> {
    if raw == [] then []
    else (if raw[0] == "" || raw[0] == "." then [] else [raw[0]]) + Spelled(raw[1..])
  }

  lemma {:induction false} SpelledPlain(raw: seq<string>)
    requires ".." !in raw && forall k :: 0 <= k < |raw| ==> '/' !in raw[k]
    ensures AllPlain(Spelled(raw))
  {
    if raw != [] { SpelledPlain(raw[1..]); }
  }

  lemma {:induction false} CleanFromSpells(raw: seq<string>, done: seq<string>)
    requires ".." !in raw
    ensures CleanFrom(false, raw, done) == done + Spelled(raw)
    decreases |raw|
  {
    if raw != [] {
      var s, rest := raw[0], raw[1..];
      var next := CleanOne(false, done, s);
      assert next == if s == "" || s == "." then done else done + [s];
      CleanFromSpells(rest, next);
    }
  }

  lemma {:induction false} JoinSlashNonEmpty(parts: seq<string>)
    requires AllPlain(parts) && |parts| >= 1
    ensures |JoinSlash(parts)| >= 1 && JoinSlash(parts)[0] != '/'
  {
    assert Plain(parts[0]) && parts[0][0] in parts[0];
  }

  /** Cleaning a relative path without "..", with any empty components, dots and trailing slashes in it. */
  lemma {:induction false} CleanSpells(raw: seq<string>)
    requires Components(raw) && raw[0] != "" && ".." !in raw
    ensures AllPlain(Spelled(raw))
    ensures Clean(JoinSlash(raw)) == if Spelled(raw) == [] then "." else JoinSlash(Spelled(raw))
  {
    var segs := Spelled(raw);
    SpelledPlain(raw);
    CleanText(raw);
    CleanFromSpells(raw, []);
    assert [] + segs == segs;
    if segs != [] { JoinSlashNonEmpty(segs); }
  }

  /** Cleaning is the identity on a relative path of plain components. */
  lemma {:induction false} CleanPlain(parts: seq<string>)
    requires AllPlain(parts) && |parts| >= 1
    ensures Clean(JoinSlash(parts)) == JoinSlash(parts)
  {
    JoinSlashNonEmpty(parts);
    var p := JoinSlash(parts);
    assert CleanFrom(false, Split(p), []) == parts by {
      JoinThenSplit(parts);
      CleanFromPlain(false, parts, []);
      assert [] + parts == parts;
    }
    assert Clean(p) == if p == "" then "." else p;
  }

  lemma {:induction false} JoinSlashSnoc(parts: seq<string>, last: string)
    requires |parts| >= 1
    ensures JoinSlash(parts + [last]) == JoinSlash(parts) + "/" + last
  {
    if |parts| > 1 {
      JoinSlashSnoc(parts[1..], last);
      assert (parts + [last])[1..] == parts[1..] + [last];
    } else {
      assert (parts + [last])[1..] == [last];
    }
  }

  /** path.Join appends one plain component to a plain relative path. */
  lemma {:induction false} JoinPlain(parts: seq<string>, last: string)
    requires AllPlain(parts) && Plain(last)
    ensures Join(JoinSlash(parts), last) == JoinSlash(parts + [last])
  {
    CleanPlain(parts + [last]);
    if |parts| == 0 {
      assert parts + [last] == [last];
    } else {
      JoinSlashNonEmpty(parts);
      JoinSlashSnoc(parts, last);
    }
  }

  /** Plain relative paths are equal as strings only if they are equal component by component. */
  lemma {:induction false} JoinSlashInjective(a: seq<string>, b: seq<string>)
    requires AllPlain(a) && AllPlain(b)
    requires JoinSlash(a) == JoinSlash(b)
    ensures a == b
  {
    if |a| >= 1 { JoinSlashNonEmpty(a); JoinThenSplit(a); }
    if |b| >= 1 { JoinSlashNonEmpty(b); JoinThenSplit(b); }
  }
}
