/**
 * `parse_gp_response`: cut the GP block out of a noisy reply and turn the
 * root's immediate children into a dictionary of tag to text.
 *
 * The XML parser (`ET.fromstring`) is a parameter of the model: for a
 * fragment it yields the root's children in document order, or nothing when
 * the fragment is not well-formed (a `ParseError`).
 */
module Extractor {
  import opened Wrappers
  import opened PyStr

  /** The prefix searched for the start of the block; it also matches
      `<GP/>` or a root tag with attributes. */
  const OpenPrefix: string := "<GP"
  /** The closing tag searched for the end of the block. */
  const CloseTag: string := "</GP>"

  /** An immediate child of the root: its tag and its text, which is `None`
      for an element without text. */
  datatype Element = Element(tag: string, text: Option<string>)

  /** The XML parser: the root's children, or `None` on a parse error. */
  type XmlParser = string -> Option<seq<Element>>

  /** The dictionary built from the children. */
  type Fields = map<string, Option<string>>

  /** The slice handed to the parser, or `None` when either marker is missing. */
  function Fragment(raw: string): (r: Option<string>)
    ensures r.None? <==> Absent(raw, OpenPrefix) || Absent(raw, CloseTag)
  {
    var start := Find(raw, OpenPrefix);
    var end := RFind(raw, CloseTag);
    if start == -1 || end == -1 then None
    else Some(Slice(raw, start, end + |CloseTag|))
  }

  /** `{child.tag: child.text for child in root}`: the children are entered
      in document order, so a later child with the same tag replaces an
      earlier one. */
  function ToDict(children: seq<Element>): Fields {
    if children == [] then map[]
    else
      var last := children[|children| - 1];
      ToDict(children[..|children| - 1])[last.tag := last.text]
  }

  /** The dictionary has exactly one key per distinct tag among the children. */
  lemma {:induction false} ToDictKeys(children: seq<Element>)
    ensures ToDict(children).Keys == set e | e in children :: e.tag
  {
    if children != [] {
      var init := children[..|children| - 1];
      var last := children[|children| - 1];
      ToDictKeys(init);
      assert children == init + [last];
      assert forall e :: e in children <==> e in init || e == last;
    }
  }

  /** The value of a tag is the text of the last child carrying it. */
  lemma {:induction false} ToDictLast(children: seq<Element>, i: int)
    requires 0 <= i < |children| && LastWithTag(children, i)
    ensures children[i].tag in ToDict(children)
    ensures ToDict(children)[children[i].tag] == children[i].text
  {
    var n := |children| - 1;
    if i < n {
      var init := children[..n];
      assert children[n].tag != children[i].tag;
      assert LastWithTag(init, i);
      ToDictLast(init, i);
    }
  }

  /** No child after the `i`-th has the same tag. */
  predicate LastWithTag(children: seq<Element>, i: int)
    requires 0 <= i < |children|
  {
    forall j :: i < j < |children| ==> children[j].tag != children[i].tag
  }

  /** `parse_gp_response(raw)`: the fields of the GP block, or the empty
      dictionary when the block is missing or does not parse. */
  function ParseGpResponse(raw: string, xml: XmlParser): (r: Fields)
    ensures r != map[] ==> Fragment(raw).Some? && xml(Fragment(raw).value).Some?
                           && r == ToDict(xml(Fragment(raw).value).value)
  {
    match Fragment(raw)
    case None => map[]
    case Some(fragment) =>
      match xml(fragment)
      case None => map[]
      case Some(children) => ToDict(children)
  }

  /** A reply without `<GP` or without `</GP>` yields no fields. */
  lemma ParseNotFound(raw: string, xml: XmlParser)
    requires Absent(raw, OpenPrefix) || Absent(raw, CloseTag)
    ensures ParseGpResponse(raw, xml) == map[]
  {
  }

  /** A fragment the parser rejects yields no fields. */
  lemma ParseMalformed(raw: string, xml: XmlParser)
    requires Fragment(raw).Some? && xml(Fragment(raw).value).None?
    ensures ParseGpResponse(raw, xml) == map[]
  {
  }

  /** Two replies with the same fragment parse alike: nothing outside the
      fragment is looked at. */
  lemma ParseDependsOnlyOnFragment(raw1: string, raw2: string, xml: XmlParser)
    requires Fragment(raw1) == Fragment(raw2)
    ensures ParseGpResponse(raw1, xml) == ParseGpResponse(raw2, xml)
  {
  }

  /** `<GP` and `</GP>` never overlap: an opening marker cannot start inside
      a closing tag. */
  lemma MarkersDisjoint(raw: string, s: int, e: int)
    requires OccursAt(raw, OpenPrefix, s) && OccursAt(raw, CloseTag, e)
    ensures s < e || e + |CloseTag| <= s
    ensures s < e ==> s + |OpenPrefix| <= e
  {
    assert OpenPrefix[0] == '<' && OpenPrefix[1] == 'G' && OpenPrefix[2] == 'P';
    assert CloseTag[0] == '<' && CloseTag[1] == '/' && CloseTag[2] == 'G';
    assert CloseTag[3] == 'P' && CloseTag[4] == '>';
    OccurrenceChar(raw, OpenPrefix, s, 0);
    OccurrenceChar(raw, OpenPrefix, s, 1);
    OccurrenceChar(raw, OpenPrefix, s, 2);
    OccurrenceChar(raw, CloseTag, e, 0);
    OccurrenceChar(raw, CloseTag, e, 1);
    OccurrenceChar(raw, CloseTag, e, 2);
    OccurrenceChar(raw, CloseTag, e, 3);
    OccurrenceChar(raw, CloseTag, e, 4);
  }

  /** When the last `</GP>` comes after the first `<GP` the fragment runs from
      that `<GP` through that `</GP>`; when it comes before, the fragment is
      empty. */
  lemma FragmentShape(raw: string)
    requires Fragment(raw).Some?
    ensures var s, e, f := Find(raw, OpenPrefix), RFind(raw, CloseTag), Fragment(raw).value;
            && (s < e ==> f == raw[s..e + |CloseTag|]
                          && StartsWith(f, OpenPrefix) && EndsWith(f, CloseTag))
            && (e < s ==> f == [])
  {
    var s, e := Find(raw, OpenPrefix), RFind(raw, CloseTag);
    MarkersDisjoint(raw, s, e);
    if s < e {
      var f := raw[s..e + |CloseTag|];
      assert f[..3] == raw[s..s + 3];
      assert f[|f| - 5..] == raw[e..e + 5];
    }
  }

  /** A `</GP>` that only occurs before the first `<GP` gives an empty
      fragment, which no XML parser accepts, so the reply yields no fields. */
  lemma ParseReversedMarkers(raw: string, xml: XmlParser)
    requires Fragment(raw).Some? && RFind(raw, CloseTag) < Find(raw, OpenPrefix)
    requires xml("") == None
    ensures ParseGpResponse(raw, xml) == map[]
  {
    FragmentShape(raw);
  }

  /** Noise around a GP block is ignored: if the prefix holds no `<GP` and the
      suffix no `</GP>`, the fragment is exactly the block. */
  lemma FragmentIgnoresNoise(prefix: string, block: string, suffix: string)
    requires StartsWith(block, OpenPrefix) && EndsWith(block, CloseTag)
    requires Absent(prefix, OpenPrefix) && Absent(suffix, CloseTag)
    ensures Fragment(prefix + block + suffix) == Some(block)
  {
    var raw := prefix + block + suffix;
    var s := |prefix|;
    var e := |prefix| + |block| - |CloseTag|;
    assert raw[s..s + 3] == block[..3];
    assert raw[e..e + 5] == block[|block| - 5..];
    NoOpenBeforeBlock(prefix, block, suffix);
    NoCloseAfterBlock(prefix, block, suffix);
    assert OccursAt(raw, OpenPrefix, s);
    assert OccursAt(raw, CloseTag, e);
    assert Find(raw, OpenPrefix) == s;
    assert RFind(raw, CloseTag) == e;
    assert raw[s..e + 5] == block;
  }

  /** No `<GP` starts before a block whose prefix holds none: one straddling
      the block's start would need a second `<` inside `<GP`. */
  lemma NoOpenBeforeBlock(prefix: string, block: string, suffix: string)
    requires StartsWith(block, OpenPrefix) && Absent(prefix, OpenPrefix)
    ensures forall i :: 0 <= i < |prefix| ==> !OccursAt(prefix + block + suffix, OpenPrefix, i)
  {
    var raw := prefix + block + suffix;
    var s := |prefix|;
    forall i | 0 <= i < s ensures !OccursAt(raw, OpenPrefix, i) {
      if i + 3 <= s {
        assert raw[i..i + 3] == prefix[i..i + 3];
        assert !OccursAt(prefix, OpenPrefix, i);
      } else {
        assert raw[s] == block[..3][0] == OpenPrefix[0] == '<';
        assert OpenPrefix[1] == 'G' && OpenPrefix[2] == 'P';
        OccurrenceChar(raw, OpenPrefix, i, s - i);
      }
    }
  }

  /** No `</GP>` starts after the closing tag of a block whose suffix holds
      none: one straddling the block's end would need a `>` inside `</GP`. */
  lemma NoCloseAfterBlock(prefix: string, block: string, suffix: string)
    requires EndsWith(block, CloseTag) && Absent(suffix, CloseTag)
    ensures forall i :: |prefix| + |block| - |CloseTag| < i
                        ==> !OccursAt(prefix + block + suffix, CloseTag, i)
  {
    var raw := prefix + block + suffix;
    var e := |prefix| + |block| - |CloseTag|;
    var k := |prefix| + |block|;
    forall i | e < i ensures !OccursAt(raw, CloseTag, i) {
      if k <= i && i + 5 <= |raw| {
        assert raw[i..i + 5] == suffix[i - k..i - k + 5];
        assert !OccursAt(suffix, CloseTag, i - k);
      } else if i < k {
        assert raw[k - 1] == block[|block| - 5..][4] == CloseTag[4] == '>';
        assert CloseTag[0] == '<' && CloseTag[1] == '/' && CloseTag[2] == 'G' && CloseTag[3] == 'P';
        OccurrenceChar(raw, CloseTag, i, k - 1 - i);
      }
    }
  }

  /** The end-to-end property of the extractor: a block surrounded by noise
      parses to the dictionary of the block's children. */
  lemma ParseIgnoresNoise(prefix: string, block: string, suffix: string, xml: XmlParser)
    requires StartsWith(block, OpenPrefix) && EndsWith(block, CloseTag)
    requires Absent(prefix, OpenPrefix) && Absent(suffix, CloseTag)
    ensures ParseGpResponse(prefix + block + suffix, xml)
            == (match xml(block) case None => map[] case Some(children) => ToDict(children))
  {
    FragmentIgnoresNoise(prefix, block, suffix);
  }

  /** Two complete blocks in one reply are merged into a single fragment from
      the first `<GP` to the last `</GP>`. */
  lemma TwoBlocksMerge(first: string, second: string)
    requires StartsWith(first, OpenPrefix) && EndsWith(first, CloseTag)
    requires StartsWith(second, OpenPrefix) && EndsWith(second, CloseTag)
    ensures Fragment(first + second) == Some(first + second)
  {
    var both := first + second;
    assert both[..3] == first[..3];
    assert both[|both| - 5..] == second[|second| - 5..];
    assert Absent([], OpenPrefix) && Absent([], CloseTag);
    FragmentIgnoresNoise([], both, []);
    assert [] + both + [] == both;
  }
}
