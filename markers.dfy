/** Arrow marker ids (NetworkGraph.jsx lines 127 and 145): each link type defines a marker
    `arrow-<type>` and each link refers to the marker of its own type, with every whitespace
    character and every `&` of the type replaced by `_` (`type.replace(/[\s&]/g, "_")`). */
module Markers {
  import opened GraphBuilder

  /** The characters the JavaScript regular-expression class `\s` matches: the ASCII
      whitespace controls, the space, and the Unicode space separators, line and paragraph
      separators and byte-order mark. */
  predicate IsJsWhitespace(c: char) {
    var n := c as int;
    || (0x09 <= n <= 0x0D) || n == 0x20 || n == 0xA0 || n == 0x1680
    || (0x2000 <= n <= 0x200A) || n == 0x2028 || n == 0x2029 || n == 0x202F
    || n == 0x205F || n == 0x3000 || n == 0xFEFF
  }

  /** The characters `[\s&]` matches. */
  predicate IsReplaced(c: char) {
    IsJsWhitespace(c) || c == '&'
  }

  /** `s.replace(/[\s&]/g, "_")`: same length, each matched character becomes `_`, every
      other character is kept in place. */
  function Sanitize(s: string): (r: string)
    ensures |r| == |s|
    ensures forall i :: 0 <= i < |s| ==> r[i] == if IsReplaced(s[i]) then '_' else s[i]
  {
    if s == [] then [] else [if IsReplaced(s[0]) then '_' else s[0]] + Sanitize(s[1..])
  }

  /** A sanitised id holds no whitespace and no `&`, and sanitising it again changes
      nothing. */
  lemma {:induction false} SanitizeClean(s: string)
    ensures forall i :: 0 <= i < |Sanitize(s)| ==> !IsReplaced(Sanitize(s)[i])
    ensures Sanitize(Sanitize(s)) == Sanitize(s)
  {
    var r := Sanitize(s);
    assert !IsReplaced('_');
    assert forall i :: 0 <= i < |r| ==> !IsReplaced(r[i]);
    assert Sanitize(r) == r;
  }

  /** Different types can share a marker id: a space, a tab and an `&` all become `_`. */
  lemma SanitizeMerges()
    ensures Sanitize("a b") == Sanitize("a\tb") == Sanitize("a&b") == Sanitize("a_b") == "a_b"
  {
    assert Sanitize("a b")[1] == '_';
    assert Sanitize("a\tb")[1] == '_';
    assert Sanitize("a&b")[1] == '_';
  }

  /** `arrow-${type.replace(...)}`: the id of the marker drawn for a type (line 127). */
  function MarkerId(kind: string): (id: string)
    ensures |id| == 6 + |kind| && id[..6] == "arrow-"
    ensures forall i :: 0 <= i < |kind| ==> id[6 + i] == if IsReplaced(kind[i]) then '_' else kind[i]
  {
    "arrow-" + Sanitize(kind)
  }

  /** `url(#arrow-${d.type.replace(...)})`: the `marker-end` of a link (line 145). */
  function MarkerRef(l: Link): string {
    "url(#" + MarkerId(l.kind) + ")"
  }

  /** The marker ids defined, one per entry of `types`, in order. */
  function MarkerIds(types: seq<string>): (ids: seq<string>)
    ensures |ids| == |types| && forall i :: 0 <= i < |types| ==> ids[i] == MarkerId(types[i])
  {
    if types == [] then [] else [MarkerId(types[0])] + MarkerIds(types[1..])
  }

  /** Every link's `marker-end` names the marker drawn for its own type: that type is some
      entry of `types`, and the id inside the link's `url(#...)` is the id defined for that
      entry. Since ids can collide (`SanitizeMerges`), this is stated per entry (the second
      ensures); the first, membership among the defined ids, is a corollary of it. */
  lemma {:induction false} LinkMarkersDefined(cs: seq<Connection>)
    ensures forall l :: l in Links(cs) ==>
      |MarkerRef(l)| == |MarkerId(l.kind)| + 6 && MarkerRef(l)[5..|MarkerRef(l)| - 1] in MarkerIds(Types(cs))
    ensures forall l :: l in Links(cs) ==>
      exists i :: 0 <= i < |Types(cs)| && Types(cs)[i] == l.kind && MarkerRef(l) == "url(#" + MarkerIds(Types(cs))[i] + ")"
  {
    TypesAreKinds(cs);
    forall l | l in Links(cs)
      ensures |MarkerRef(l)| == |MarkerId(l.kind)| + 6 && MarkerRef(l)[5..|MarkerRef(l)| - 1] in MarkerIds(Types(cs))
      ensures exists i :: 0 <= i < |Types(cs)| && Types(cs)[i] == l.kind && MarkerRef(l) == "url(#" + MarkerIds(Types(cs))[i] + ")"
    {
      var j :| 0 <= j < |Links(cs)| && Links(cs)[j] == l;
      assert cs[j].kind == l.kind;
      LinkMarker(Types(cs), l);
    }
  }

  /** Helper for LinkMarkersDefined: a link whose type is an entry of `types` refers to the
      marker id defined for that entry. The first ensures (the id is among the defined ids)
      is a corollary of the second, kept for callers that only need membership. */
  lemma LinkMarker(types: seq<string>, l: Link)
    requires l.kind in types
    ensures |MarkerRef(l)| == |MarkerId(l.kind)| + 6 && MarkerRef(l)[5..|MarkerRef(l)| - 1] in MarkerIds(types)
    ensures exists i :: 0 <= i < |types| && types[i] == l.kind && MarkerRef(l) == "url(#" + MarkerIds(types)[i] + ")"
  {
    var i :| 0 <= i < |types| && types[i] == l.kind;
    assert MarkerIds(types)[i] == MarkerId(l.kind);
    assert MarkerRef(l)[5..|MarkerRef(l)| - 1] == MarkerId(l.kind);
  }
}
