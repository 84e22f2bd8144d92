/** The `--keep` argument of the filter command: a comma-separated list of
    block types, each item trimmed of surrounding whitespace and read as an
    integer (`[int(t.strip()) for t in keep.split(",")]`). */
module KeepList {
  import opened Results
  import BlockKey

  // ----- str.split with an explicit separator -----

  /** The pieces `parts` written back with `sep` between consecutive ones. */
  function Join(parts: seq<string>, sep: char): string
  {
    if parts == [] then []
    else if |parts| == 1 then parts[0]
    else parts[0] + [sep] + Join(parts[1..], sep)
  }

  /** `s.split(sep)`: the maximal runs of `s` between separators, keeping
      empty runs, so the result is never empty ("" splits to [""]). */
  function Split(s: string, sep: char): (parts: seq<string>)
    ensures |parts| >= 1
    ensures forall i :: 0 <= i < |parts| ==> sep !in parts[i]
    ensures Join(parts, sep) == s
  {
    if s == [] then [[]]
    else
      var rest := Split(s[1..], sep);
      if s[0] == sep then
        assert Join([[]] + rest, sep) == [sep] + Join(rest, sep) by {
          assert ([[]] + rest)[1..] == rest;
        }
        [[]] + rest
      else
        var parts := [[s[0]] + rest[0]] + rest[1..];
        assert Join(parts, sep) == [s[0]] + Join(rest, sep) by {
          if |rest| > 1 {
            assert parts[1..] == rest[1..];
          }
        }
        parts
  }

  /** Splitting a string that starts with the piece `p` (which holds no
      separator) puts `p` in front of the first piece of the rest. */
  lemma {:induction false} SplitAfterPiece(p: string, t: string, sep: char)
    requires sep !in p
    ensures Split(p + t, sep) == [p + Split(t, sep)[0]] + Split(t, sep)[1..]
  {
    if p != [] {
      assert (p + t)[0] == p[0] && (p + t)[1..] == p[1..] + t;
      SplitAfterPiece(p[1..], t, sep);
      assert [p[0]] + (p[1..] + Split(t, sep)[0]) == p + Split(t, sep)[0];
    } else {
      var st := Split(t, sep);
      assert p + t == t && p + st[0] == st[0];
      assert [st[0]] + st[1..] == st;
    }
  }

  /** Splitting undoes joining, for pieces that hold no separator. */
  lemma {:induction false} SplitJoin(parts: seq<string>, sep: char)
    requires |parts| >= 1
    requires forall i :: 0 <= i < |parts| ==> sep !in parts[i]
    ensures Split(Join(parts, sep), sep) == parts
  {
    if |parts| == 1 {
      SplitAfterPiece(parts[0], [], sep);
      assert Split([], sep) == [[]];
      assert parts[0] + [] == parts[0];
      assert parts == [parts[0]];
    } else {
      var tail := Join(parts[1..], sep);
      SplitJoin(parts[1..], sep);
      SplitAfterPiece(parts[0], [sep] + tail, sep);
      assert ([sep] + tail)[1..] == tail;
      assert Split([sep] + tail, sep) == [[]] + parts[1..];
      assert parts[0] + [] == parts[0];
      assert parts[0] + [sep] + tail == parts[0] + ([sep] + tail);
      assert parts == [parts[0]] + parts[1..];
    }
  }

  // ----- str.strip with no argument -----

  /** The characters `str.isspace` accepts, which `str.strip()` removes:
      the ASCII controls TAB to CR and FS to US, SPACE, and the Unicode
      separators and spaces. */
  predicate IsSpace(c: char)
  {
    || '\t' <= c <= '\r'
    || '\U{1c}' <= c <= ' '
    || c == '\U{85}' || c == '\U{a0}' || c == '\U{1680}'
    || '\U{2000}' <= c <= '\U{200a}'
    || c == '\U{2028}' || c == '\U{2029}' || c == '\U{202f}' || c == '\U{205f}' || c == '\U{3000}'
  }

  predicate AllSpace(s: string)
  {
    forall i :: 0 <= i < |s| ==> IsSpace(s[i])
  }

  /** `s.lstrip()`. */
  function TrimStart(s: string): (r: string)
    ensures |r| <= |s| && r == s[|s| - |r|..]
    ensures forall i :: 0 <= i < |s| - |r| ==> IsSpace(s[i])
    ensures r != [] ==> !IsSpace(r[0])
  {
    if s != [] && IsSpace(s[0]) then TrimStart(s[1..]) else s
  }

  /** `s.rstrip()`. */
  function TrimEnd(s: string): (r: string)
    ensures |r| <= |s| && r == s[..|r|]
    ensures forall i :: |r| <= i < |s| ==> IsSpace(s[i])
    ensures r != [] ==> !IsSpace(r[|r| - 1])
  {
    if s != [] && IsSpace(s[|s| - 1]) then TrimEnd(s[..|s| - 1]) else s
  }

  /** `s.strip()`: `s` without its leading and trailing whitespace
      (`StripPadded` says that nothing else is removed). */
  function Strip(s: string): (r: string)
    ensures |r| <= |s|
    ensures r == [] || (!IsSpace(r[0]) && !IsSpace(r[|r| - 1]))
  {
    var t := TrimStart(s);
    var r := TrimEnd(t);
    assert r != [] ==> r[0] == t[0];
    r
  }

  /** Whitespace around a piece does not change what `strip` leaves. */
  lemma StripPadded(pad1: string, s: string, pad2: string)
    requires AllSpace(pad1) && AllSpace(pad2)
    requires s == [] || (!IsSpace(s[0]) && !IsSpace(s[|s| - 1]))
    ensures Strip(pad1 + s + pad2) == s
  {
    var w := pad1 + s + pad2;
    if s == [] {
      assert AllSpace(w);
      AllSpaceTrimsToEmpty(w);
    } else {
      assert (s + pad2)[0] == s[0];
      PaddedTrimStart(pad1, s + pad2);
      assert pad1 + (s + pad2) == w;
      PaddedTrimEnd(s, pad2);
    }
  }

  lemma {:induction false} AllSpaceTrimsToEmpty(s: string)
    requires AllSpace(s)
    ensures TrimStart(s) == []
  {
    if s != [] {
      AllSpaceTrimsToEmpty(s[1..]);
    }
  }

  lemma {:induction false} PaddedTrimStart(pad: string, s: string)
    requires AllSpace(pad)
    requires s == [] || !IsSpace(s[0])
    ensures TrimStart(pad + s) == s
  {
    if pad != [] {
      assert (pad + s)[1..] == pad[1..] + s;
      PaddedTrimStart(pad[1..], s);
    } else {
      assert pad + s == s;
    }
  }

  lemma {:induction false} PaddedTrimEnd(s: string, pad: string)
    requires AllSpace(pad)
    requires s == [] || !IsSpace(s[|s| - 1])
    ensures TrimEnd(s + pad) == s
  {
    if pad != [] {
      var w := s + pad;
      assert w[..|w| - 1] == s + pad[..|pad| - 1];
      PaddedTrimEnd(s, pad[..|pad| - 1]);
    } else {
      assert s + pad == s;
    }
  }

  // ----- the keep list -----

  /** Each item of `items`, stripped. */
  function StripAll(items: seq<string>): (r: seq<string>)
    ensures |r| == |items|
    ensures forall i :: 0 <= i < |items| ==> r[i] == Strip(items[i])
  {
    seq(|items|, i requires 0 <= i < |items| => Strip(items[i]))
  }

  /** The position of the first text that is not an integer, or `|texts|`
      when every one is. */
  function FirstUnparsed(texts: seq<string>): (i: nat)
    ensures i <= |texts|
    ensures forall j :: 0 <= j < i ==> BlockKey.ParseNat(texts[j]).Some?
    ensures i < |texts| ==> BlockKey.ParseNat(texts[i]).None?
  {
    if texts == [] then 0
    else if BlockKey.ParseNat(texts[0]).None? then 0
    else 1 + FirstUnparsed(texts[1..])
  }

  /** `[int(t) for t in texts]`: the first text that is not an integer
      raises `ValueError` with that text. */
  function ParseItems(texts: seq<string>): (r: Result<seq<nat>>)
    ensures r.Ok? <==> FirstUnparsed(texts) == |texts|
    ensures r.Ok? ==> |r.value| == |texts|
                      && forall i :: 0 <= i < |texts| ==> BlockKey.ParseNat(texts[i]) == Some(r.value[i])
    ensures r.ValueError? ==> r.literal == texts[FirstUnparsed(texts)]
  {
    if texts == [] then Ok([])
    else
      var head := BlockKey.ParseNat(texts[0]);
      if head.None? then ValueError(texts[0])
      else
        var rest := ParseItems(texts[1..]);
        if rest.ValueError? then ValueError(rest.literal)
        else
          assert forall i :: 1 <= i < |texts| ==> texts[1..][i - 1] == texts[i];
          Ok([head.value] + rest.value)
  }

  /** The block types named by the `--keep` text:
      `[int(t.strip()) for t in keep.split(",")]`. */
  function ParseKeepList(keep: string): Result<seq<nat>>
  {
    ParseItems(StripAll(Split(keep, ',')))
  }

  /** Whitespace around the comma-separated items of the keep text does not
      change the parsed keep list. */
  lemma KeepListIgnoresSpacing(a: seq<string>, b: seq<string>)
    requires |a| == |b| >= 1
    requires forall i :: 0 <= i < |a| ==> ',' !in a[i] && ',' !in b[i]
    requires forall i :: 0 <= i < |a| ==> Strip(a[i]) == Strip(b[i])
    ensures ParseKeepList(Join(a, ',')) == ParseKeepList(Join(b, ','))
  {
    SplitJoin(a, ',');
    SplitJoin(b, ',');
    assert StripAll(a) == StripAll(b);
  }

  /** No decimal digit is whitespace. */
  lemma DigitNotSpace(c: char)
    requires BlockKey.IsDigit(c)
    ensures !IsSpace(c)
  {
  }

  /** The decimal renderings of `ns`. */
  function RenderAll(ns: seq<nat>): (r: seq<string>)
    ensures |r| == |ns|
    ensures forall i :: 0 <= i < |ns| ==> r[i] == BlockKey.RenderNat(ns[i])
  {
    seq(|ns|, i requires 0 <= i < |ns| => BlockKey.RenderNat(ns[i]))
  }

  /** Texts that each parse to the matching number parse to the list. */
  lemma ParseItemsAllOk(texts: seq<string>, ns: seq<nat>)
    requires |texts| == |ns|
    requires forall i :: 0 <= i < |texts| ==> BlockKey.ParseNat(texts[i]) == Some(ns[i])
    ensures ParseItems(texts) == Ok(ns)
  {
    var r := ParseItems(texts);
    assert r.Ok?;
    forall i | 0 <= i < |ns| ensures r.value[i] == ns[i] {
      assert BlockKey.ParseNat(texts[i]) == Some(r.value[i]);
    }
    assert r.value == ns;
  }

  /** The rendering of a number has no comma, strips to itself and parses
      back to the number. */
  lemma RenderedItem(n: nat)
    ensures ',' !in BlockKey.RenderNat(n)
    ensures Strip(BlockKey.RenderNat(n)) == BlockKey.RenderNat(n)
    ensures BlockKey.ParseNat(BlockKey.RenderNat(n)) == Some(n)
  {
    var t := BlockKey.RenderNat(n);
    BlockKey.AllDigitsAt(t);
    DigitNotSpace(t[0]);
    DigitNotSpace(t[|t| - 1]);
    StripPadded([], t, []);
    assert [] + t + [] == t;
    BlockKey.ParseRenderNat(n);
  }

  lemma RenderedNoComma(ns: seq<nat>)
    ensures forall i :: 0 <= i < |ns| ==> ',' !in RenderAll(ns)[i]
  {
    forall i | 0 <= i < |ns| ensures ',' !in RenderAll(ns)[i] {
      RenderedItem(ns[i]);
    }
  }

  lemma RenderedStripped(ns: seq<nat>)
    ensures StripAll(RenderAll(ns)) == RenderAll(ns)
  {
    forall i | 0 <= i < |ns| ensures Strip(RenderAll(ns)[i]) == RenderAll(ns)[i] {
      RenderedItem(ns[i]);
    }
  }

  lemma RenderedParsed(ns: seq<nat>)
    ensures ParseItems(RenderAll(ns)) == Ok(ns)
  {
    forall i | 0 <= i < |ns| ensures BlockKey.ParseNat(RenderAll(ns)[i]) == Some(ns[i]) {
      RenderedItem(ns[i]);
    }
    ParseItemsAllOk(RenderAll(ns), ns);
  }

  /** A keep text written as numbers joined by commas parses back to those
      numbers, in order and with repeats. */
  lemma KeepListRoundTrip(ns: seq<nat>)
    requires |ns| >= 1
    ensures ParseKeepList(Join(RenderAll(ns), ',')) == Ok(ns)
  {
    RenderedNoComma(ns);
    SplitJoin(RenderAll(ns), ',');
    RenderedStripped(ns);
    RenderedParsed(ns);
  }
}
