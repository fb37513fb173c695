/** The tolerant field lookup `getValue` of app.js: a ticket is a JSON object
    whose field names vary in spelling and case, and the resolver picks the
    value of the first acceptable candidate name, trying exact names before
    case-insensitive ones. */
module Resolver {
  import opened Wrappers
  import opened Text

  /** A field value as JavaScript sees it: `undefined`, `null`, a string, or
      any other value, carried with the text `String(value)` gives for it. */
  datatype JVal = Undefined | Null | Str(s: string) | Other(shown: string)

  /** A ticket object: its own properties in `Object.keys` order. */
  type Record = seq<(string, JVal)>

  /** `Object.keys(record)`: one name per property, and a name is listed
      exactly when some property carries it. */
  function Keys(r: Record): (ks: seq<string>)
    ensures |ks| == |r|
    ensures forall k :: k in ks <==> exists v :: (k, v) in r
  {
    var ks := seq(|r|, i requires 0 <= i < |r| => r[i].0);
    NamesListed(r, ks);
    ks
  }

  lemma NamesListed(r: Record, ks: seq<string>)
    requires |ks| == |r| && forall i :: 0 <= i < |r| ==> ks[i] == r[i].0
    ensures forall k :: k in ks <==> exists v :: (k, v) in r
  {
    forall k | k in ks
      ensures exists v :: (k, v) in r
    {
      var i :| 0 <= i < |ks| && ks[i] == k;
      assert r[i] == (k, r[i].1);
    }
    forall k, v | (k, v) in r
      ensures k in ks
    {
      var i :| 0 <= i < |r| && r[i] == (k, v);
      assert ks[i] == k;
    }
  }

  /** `Object.keys(record).map(k => k.toLowerCase())`. */
  function LowerKeys(r: Record): seq<string> {
    seq(|r|, i requires 0 <= i < |r| => Lower(r[i].0))
  }

  /** `record.hasOwnProperty(k) ? record[k] : (absent)`: the value under the
      property named `k`. */
  function Get(r: Record, k: string): (v: Option<JVal>)
    ensures v.Some? <==> k in Keys(r)
    ensures v.Some? ==> exists i :: 0 <= i < |r| && r[i] == (k, v.value)
  {
    match IndexOf(Keys(r), k)
    case None => None
    case Some(i) => Some(r[i].1)
  }

  /** The value the case-insensitive pass examines for candidate `k`: that of
      the FIRST property whose lower-cased name equals `k` lower-cased. */
  function FoldLookup(r: Record, k: string): (v: Option<JVal>)
    ensures v.Some? <==> Lower(k) in LowerKeys(r)
  {
    match IndexOf(LowerKeys(r), Lower(k))
    case None => None
    case Some(i) =>
      assert Keys(r)[i] in Keys(r);
      Get(r, Keys(r)[i])
  }

  /** The emptiness rule: with `allowEmpty` any present value qualifies,
      otherwise `undefined`, `null` and `''` do not. */
  predicate Acceptable(v: JVal, allowEmpty: bool) {
    allowEmpty || (v != Undefined && v != Null && v != Str(""))
  }

  /** What the resolver returns for a value: `String(value)`, or `''` for
      `null` and `undefined`. */
  function AsString(v: JVal): string {
    match v
    case Undefined => ""
    case Null => ""
    case Str(s) => s
    case Other(t) => t
  }

  /** The property examined for candidate `k`: by exact name (`fold` false) or
      by case-insensitive name (`fold` true). */
  function Lookup(r: Record, k: string, fold: bool): Option<JVal> {
    if fold then FoldLookup(r, k) else Get(r, k)
  }

  /** Candidate `k` succeeds in the given pass. */
  predicate Hit(r: Record, k: string, allowEmpty: bool, fold: bool) {
    Lookup(r, k, fold).Some? && Acceptable(Lookup(r, k, fold).value, allowEmpty)
  }

  /** A candidate succeeds only when it names a property (exactly, or up to
      case in the folding pass); with `allowEmpty` naming one is enough. */
  lemma HitNamesProperty(r: Record, k: string, allowEmpty: bool, fold: bool)
    ensures Hit(r, k, allowEmpty, fold) ==> if fold then Lower(k) in LowerKeys(r) else k in Keys(r)
    ensures allowEmpty ==> (Hit(r, k, allowEmpty, fold) <==> if fold then Lower(k) in LowerKeys(r) else k in Keys(r))
  {
  }

  /** The loop of one pass of `getValue`: the position of the FIRST candidate,
      in listed order, that hits, or `None` when none does. */
  function FirstHit(r: Record, cands: seq<string>, allowEmpty: bool, fold: bool): (k: Option<nat>)
    ensures k.Some? ==> k.value < |cands| && Hit(r, cands[k.value], allowEmpty, fold)
    ensures k.Some? ==> forall j :: 0 <= j < k.value ==> !Hit(r, cands[j], allowEmpty, fold)
    ensures k.None? ==> forall j :: 0 <= j < |cands| ==> !Hit(r, cands[j], allowEmpty, fold)
  {
    if cands == [] then None
    else if Hit(r, cands[0], allowEmpty, fold) then Some(0)
    else
      match FirstHit(r, cands[1..], allowEmpty, fold)
      case None => None
      case Some(i) => Some(i + 1)
  }

  /** One pass of `getValue`: the text of the first candidate that hits. */
  function Pass(r: Record, cands: seq<string>, allowEmpty: bool, fold: bool): (res: Option<string>)
    ensures res.Some? <==> exists i :: 0 <= i < |cands| && Hit(r, cands[i], allowEmpty, fold)
  {
    match FirstHit(r, cands, allowEmpty, fold)
    case None => None
    case Some(i) => Some(AsString(Lookup(r, cands[i], fold).value))
  }

  /** `getValue(record, possibleKeys, allowEmpty)`: `None` is JavaScript's
      `null`. The exact pass decides whenever some candidate hits in it; the
      result is `null` exactly when empty values are not allowed and no
      candidate hits in either pass; with `allowEmpty` a miss gives `''`. */
  function GetValue(r: Record, cands: seq<string>, allowEmpty: bool): (res: Option<string>)
    ensures (exists i :: 0 <= i < |cands| && Hit(r, cands[i], allowEmpty, false)) ==>
      res == Pass(r, cands, allowEmpty, false)
    ensures res.None? <==>
      !allowEmpty && forall i :: 0 <= i < |cands| ==>
        !Hit(r, cands[i], allowEmpty, false) && !Hit(r, cands[i], allowEmpty, true)
    ensures allowEmpty && (forall i :: 0 <= i < |cands| ==>
        !Hit(r, cands[i], allowEmpty, false) && !Hit(r, cands[i], allowEmpty, true)) ==>
      res == Some("")
  {
    match Pass(r, cands, allowEmpty, false)
    case Some(v) => Some(v)
    case None =>
      match Pass(r, cands, allowEmpty, true)
      case Some(v) => Some(v)
      case None => if allowEmpty then Some("") else None
  }

  /** The first candidate (in listed order) that is an own property with an
      acceptable value wins, before any case-insensitive comparison. */
  lemma ExactMatchWins(r: Record, cands: seq<string>, allowEmpty: bool, i: nat)
    requires i < |cands| && Hit(r, cands[i], allowEmpty, false)
    requires forall j :: 0 <= j < i ==> !Hit(r, cands[j], allowEmpty, false)
    ensures GetValue(r, cands, allowEmpty) == Some(AsString(Get(r, cands[i]).value))
  {
    var k := FirstHit(r, cands, allowEmpty, false);
    assert k == Some(i);
  }

  /** The usual case: the first candidate that is a property name at all holds
      an acceptable value, and that value is the result. */
  lemma FirstPresentCandidate(r: Record, cands: seq<string>, allowEmpty: bool, i: nat, v: JVal)
    requires i < |cands| && Get(r, cands[i]) == Some(v) && Acceptable(v, allowEmpty)
    requires forall j :: 0 <= j < i ==> cands[j] !in Keys(r)
    ensures GetValue(r, cands, allowEmpty) == Some(AsString(v))
  {
    ExactMatchWins(r, cands, allowEmpty, i);
  }

  /** When no candidate hits exactly, the result is that of the first candidate
      whose case-insensitive lookup hits. */
  lemma FoldMatchFallback(r: Record, cands: seq<string>, allowEmpty: bool, i: nat)
    requires forall j :: 0 <= j < |cands| ==> !Hit(r, cands[j], allowEmpty, false)
    requires i < |cands| && Hit(r, cands[i], allowEmpty, true)
    requires forall j :: 0 <= j < i ==> !Hit(r, cands[j], allowEmpty, true)
    ensures GetValue(r, cands, allowEmpty) == Some(AsString(FoldLookup(r, cands[i]).value))
  {
    var k := FirstHit(r, cands, allowEmpty, true);
    assert k == Some(i);
  }

  /** The case-insensitive lookup reads the value of the first property whose
      lower-cased name matches, and of no later one. */
  lemma FoldLookupFirst(r: Record, k: string, m: nat)
    requires m < |r| && Lower(r[m].0) == Lower(k)
    requires forall j :: 0 <= j < m ==> Lower(r[j].0) != Lower(k)
    ensures FoldLookup(r, k) == Some(r[m].1)
  {
    IndexOfFirst(LowerKeys(r), Lower(k), m);
    IndexOfFirst(Keys(r), r[m].0, m);
  }

  /** For each candidate only the first property whose name matches it
      case-insensitively is examined: when that value is unacceptable the
      candidate misses, even if a later property with an equally matching name
      holds an acceptable value. */
  lemma FoldShadowing(r: Record, k: string, allowEmpty: bool, m: nat)
    requires m < |r| && Lower(r[m].0) == Lower(k) && !Acceptable(r[m].1, allowEmpty)
    requires forall j :: 0 <= j < m ==> Lower(r[j].0) != Lower(k)
    ensures !Hit(r, k, allowEmpty, true)
  {
    FoldLookupFirst(r, k, m);
  }

  /** A record none of whose property names matches any candidate, even
      case-insensitively, resolves to `null`, or to `''` when empty values are
      allowed. */
  lemma NoMatchingKey(r: Record, cands: seq<string>, allowEmpty: bool)
    requires forall m, c :: 0 <= m < |r| && c in cands ==> Lower(r[m].0) != Lower(c)
    ensures GetValue(r, cands, allowEmpty) == if allowEmpty then Some("") else None
  {
    forall i | 0 <= i < |cands|
      ensures !Hit(r, cands[i], allowEmpty, false) && !Hit(r, cands[i], allowEmpty, true)
    {
      NoKeyNoHit(r, cands[i], allowEmpty);
    }
  }

  /** A candidate no property name matches, even ignoring case, hits in
      neither pass. */
  lemma NoKeyNoHit(r: Record, c: string, allowEmpty: bool)
    requires forall m :: 0 <= m < |r| ==> Lower(r[m].0) != Lower(c)
    ensures !Hit(r, c, allowEmpty, false) && !Hit(r, c, allowEmpty, true)
  {
    assert c !in Keys(r) by {
      forall m | 0 <= m < |r| ensures Keys(r)[m] != c {
        assert Lower(Keys(r)[m]) != Lower(c);
      }
    }
    assert Lower(c) !in LowerKeys(r);
  }

  /** A candidate misses in both passes when every property whose name
      matches it, even ignoring case, holds an unacceptable value. */
  lemma UnacceptableNoHit(r: Record, c: string, allowEmpty: bool)
    requires forall m :: 0 <= m < |r| && Lower(r[m].0) == Lower(c) ==> !Acceptable(r[m].1, allowEmpty)
    ensures !Hit(r, c, allowEmpty, false) && !Hit(r, c, allowEmpty, true)
  {
    var v := Get(r, c);
    if v.Some? {
      var m :| 0 <= m < |r| && r[m] == (c, v.value);
      assert Lower(r[m].0) == Lower(c);
    }
    match IndexOf(LowerKeys(r), Lower(c))
    case None =>
    case Some(i) =>
      var w := Get(r, Keys(r)[i]);
      assert Keys(r)[i] in Keys(r);
      var m :| 0 <= m < |r| && r[m] == (Keys(r)[i], w.value);
      assert Lower(r[m].0) == LowerKeys(r)[i];
  }

  /** A record in which every property matching some candidate holds `null`,
      `undefined` or `''` resolves as if the property were missing: to `null`,
      or to `''` when empty values are allowed. */
  lemma NoAcceptableValue(r: Record, cands: seq<string>, allowEmpty: bool)
    requires forall m, c :: 0 <= m < |r| && c in cands && Lower(r[m].0) == Lower(c) ==>
      !Acceptable(r[m].1, allowEmpty)
    ensures GetValue(r, cands, allowEmpty) == if allowEmpty then Some("") else None
  {
    forall i | 0 <= i < |cands|
      ensures !Hit(r, cands[i], allowEmpty, false) && !Hit(r, cands[i], allowEmpty, true)
    {
      UnacceptableNoHit(r, cands[i], allowEmpty);
    }
  }

  /** With `allowEmpty` the resolver never yields `null`. */
  lemma AllowEmptyNeverNull(r: Record, cands: seq<string>)
    ensures GetValue(r, cands, true).Some?
  {
  }
}
