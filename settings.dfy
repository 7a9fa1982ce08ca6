/**
 * The settings object (backend/src/settings.py) and its `allow_origins`
 * property: the comma-separated origin string is split on `,`, each piece is
 * stripped, and the empty pieces are dropped. Reading the environment is
 * not modelled: the raw string is an input.
 */
module Settings {
  import opened Text

  /** The number of commas in `s`. */
  function CountCommas(s: string): nat {
    if s == [] then 0 else (if s[0] == ',' then 1 else 0) + CountCommas(s[1..])
  }

  /** `s.split(",")`: the pieces between commas, empty ones included; the
      empty string gives one empty piece. */
  function SplitOnComma(s: string): (segs: seq<string>)
    ensures |segs| == CountCommas(s) + 1
    ensures forall k :: 0 <= k < |segs| ==> ',' !in segs[k]
  {
    if s == [] then [[]]
    else if s[0] == ',' then [[]] + SplitOnComma(s[1..])
    else
      var rest := SplitOnComma(s[1..]);
      [[s[0]] + rest[0]] + rest[1..]
  }

  /** `",".join(parts)`, the inverse of the split. */
  function Join(parts: seq<string>): string {
    if |parts| == 0 then []
    else if |parts| == 1 then parts[0]
    else parts[0] + [','] + Join(parts[1..])
  }

  /** `o.strip()` for every piece, in order. */
  function StripAll(segs: seq<string>): (stripped: seq<string>)
    ensures |stripped| == |segs|
    ensures forall k :: 0 <= k < |segs| ==> stripped[k] == Strip(segs[k])
  {
    if segs == [] then [] else [Strip(segs[0])] + StripAll(segs[1..])
  }

  /** The comprehension's `if o.strip()`: the empty strings are dropped. */
  function NonEmpty(xs: seq<string>): (kept: seq<string>)
    ensures |kept| <= |xs|
  {
    if xs == [] then []
    else NonEmpty(Init(xs)) + (if Last(xs) != [] then [Last(xs)] else [])
  }

  function Init(xs: seq<string>): seq<string>
    requires xs != []
  {
    xs[..|xs| - 1]
  }

  function Last(xs: seq<string>): string
    requires xs != []
  {
    xs[|xs| - 1]
  }

  /** `Settings.allow_origins`. */
  function ParseOrigins(csv: string): (origins: seq<string>)
    ensures |origins| <= CountCommas(csv) + 1
  {
    NonEmpty(StripAll(SplitOnComma(csv)))
  }

  /** The settings record; every field is set once, from the environment or
      its default. */
  datatype Settings = Settings(appEnv: string, host: string, port: int, allowOriginsCsv: string) {
    function AllowOrigins(): seq<string> {
      ParseOrigins(allowOriginsCsv)
    }
  }

  const DefaultAllowOrigins: string := "http://localhost:3000"

  /** The settings when no environment variable is set. */
  function Defaults(): Settings {
    Settings("dev", "0.0.0.0", 8000, DefaultAllowOrigins)
  }

  // ----- the split and the join -----

  /** Splitting and joining again gives the original string back. */
  lemma {:induction false} JoinSplit(s: string)
    ensures Join(SplitOnComma(s)) == s
  {
    if s == [] {
    } else if s[0] == ',' {
      JoinSplit(s[1..]);
      assert s == [','] + s[1..];
    } else {
      JoinSplit(s[1..]);
      var rest := SplitOnComma(s[1..]);
      if |rest| == 1 {
        assert s == [s[0]] + s[1..];
      } else {
        assert Join(rest) == rest[0] + [','] + Join(rest[1..]);
        assert s == [s[0]] + s[1..];
      }
    }
  }

  /** A comma-free prefix joins the first piece of what follows it. */
  lemma {:induction false} SplitCommaFreePrefix(a: string, rest: string)
    requires ',' !in a
    ensures SplitOnComma(a + rest) ==
      [a + SplitOnComma(rest)[0]] + SplitOnComma(rest)[1..]
  {
    var segs := SplitOnComma(rest);
    if a == [] {
      assert a + rest == rest;
      assert [] + segs[0] == segs[0];
      assert segs == [segs[0]] + segs[1..];
    } else {
      var x := a + rest;
      assert a[0] in a;
      assert x[0] == a[0] && x[0] != ',';
      assert x[1..] == a[1..] + rest;
      SplitCommaFreePrefix(a[1..], rest);
      var r := SplitOnComma(x[1..]);
      assert r[0] == a[1..] + segs[0] && r[1..] == segs[1..];
      assert SplitOnComma(x) == [[a[0]] + r[0]] + r[1..];
      assert [a[0]] + (a[1..] + segs[0]) == a + segs[0];
    }
  }

  /** Joining comma-free pieces and splitting again gives the pieces back. */
  lemma {:induction false} SplitJoin(parts: seq<string>)
    requires |parts| > 0
    requires forall k :: 0 <= k < |parts| ==> ',' !in parts[k]
    ensures SplitOnComma(Join(parts)) == parts
  {
    if |parts| == 1 {
      SplitCommaFreePrefix(parts[0], []);
      assert parts[0] + [] == parts[0];
    } else {
      SplitJoin(parts[1..]);
      var tail := [','] + Join(parts[1..]);
      assert Join(parts) == parts[0] + tail;
      SplitCommaFreePrefix(parts[0], tail);
      assert tail[0] == ',' && tail[1..] == Join(parts[1..]);
      assert SplitOnComma(tail) == [[]] + parts[1..];
      assert parts[0] + [] == parts[0];
      assert parts == [parts[0]] + parts[1..];
    }
  }

  /** A character other than a comma lies inside one of the pieces. */
  lemma {:induction false} JoinCharacter(parts: seq<string>, c: char)
    requires c in Join(parts) && c != ','
    ensures exists k :: 0 <= k < |parts| && c in parts[k]
  {
    if |parts| > 1 {
      if c !in parts[0] {
        JoinCharacter(parts[1..], c);
        var k :| 0 <= k < |parts[1..]| && c in parts[1..][k];
        assert c in parts[k + 1];
      }
    }
  }

  // ----- the filter -----

  /** What `allow_origins` yields: non-empty, stripped, comma-free strings. */
  predicate IsOrigin(o: string) {
    o != [] && IsStripped(o) && ',' !in o
  }

  /** The positions of the strings the filter keeps. */
  function KeptPieces(xs: seq<string>): seq<nat> {
    if xs == [] then []
    else KeptPieces(Init(xs)) + (if Last(xs) != [] then [|xs| - 1] else [])
  }

  /** The k-th kept string is the string at the k-th kept position. */
  lemma {:induction false} KeptPiecesSource(xs: seq<string>)
    ensures |KeptPieces(xs)| == |NonEmpty(xs)|
    ensures forall k :: 0 <= k < |KeptPieces(xs)| ==>
      KeptPieces(xs)[k] < |xs| && NonEmpty(xs)[k] == xs[KeptPieces(xs)[k]]
  {
    if xs != [] {
      var init := Init(xs);
      KeptPiecesSource(init);
      forall k | 0 <= k < |KeptPieces(init)|
        ensures KeptPieces(xs)[k] == KeptPieces(init)[k] < |init|
        ensures NonEmpty(xs)[k] == NonEmpty(init)[k] == xs[KeptPieces(init)[k]]
      {
      }
    }
  }

  /** The kept positions strictly increase. */
  lemma {:induction false} KeptPiecesIncreasing(xs: seq<string>)
    ensures forall k, l :: 0 <= k < l < |KeptPieces(xs)| ==> KeptPieces(xs)[k] < KeptPieces(xs)[l]
  {
    if xs != [] {
      KeptPiecesIncreasing(Init(xs));
      KeptPiecesSource(Init(xs));
    }
  }

  /** Every non-empty string is kept, at position `k`. */
  lemma {:induction false} KeptPiecesComplete(xs: seq<string>, i: nat) returns (k: nat)
    requires i < |xs| && xs[i] != []
    ensures k < |KeptPieces(xs)| && KeptPieces(xs)[k] == i
  {
    var init := Init(xs);
    if i == |xs| - 1 {
      k := |KeptPieces(init)|;
    } else {
      assert init[i] == xs[i];
      k := KeptPiecesComplete(init, i);
    }
  }

  /** The filter keeps, in order, exactly the non-empty strings. `idx` gives
      the position each kept string came from. */
  lemma NonEmptyOrder(xs: seq<string>) returns (idx: seq<nat>)
    ensures |idx| == |NonEmpty(xs)|
    ensures forall k :: 0 <= k < |idx| ==> idx[k] < |xs| && NonEmpty(xs)[k] == xs[idx[k]]
    ensures forall k, l :: 0 <= k < l < |idx| ==> idx[k] < idx[l]
    ensures forall i :: 0 <= i < |xs| && xs[i] != [] ==> i in idx
  {
    idx := KeptPieces(xs);
    KeptPiecesSource(xs);
    KeptPiecesIncreasing(xs);
    forall i | 0 <= i < |xs| && xs[i] != [] ensures i in idx {
      var k := KeptPiecesComplete(xs, i);
    }
  }

  /** Every kept string is one of the input strings and is not empty. */
  lemma {:induction false} NonEmptyMembers(xs: seq<string>)
    ensures forall o :: o in NonEmpty(xs) ==> o in xs && o != []
  {
    if xs != [] {
      NonEmptyMembers(Init(xs));
      assert forall o :: o in Init(xs) ==> o in xs;
    }
  }

  /** Strings that are all non-empty pass the filter unchanged. */
  lemma {:induction false} NonEmptyFixed(xs: seq<string>)
    requires forall k :: 0 <= k < |xs| ==> xs[k] != []
    ensures NonEmpty(xs) == xs
  {
    if xs != [] {
      NonEmptyFixed(Init(xs));
      assert Init(xs) + [Last(xs)] == xs;
    }
  }

  /** The filter keeps nothing exactly when every string is empty. */
  lemma {:induction false} NonEmptyEmptyIff(xs: seq<string>)
    ensures NonEmpty(xs) == [] <==> forall k :: 0 <= k < |xs| ==> xs[k] == []
  {
    if xs != [] {
      NonEmptyEmptyIff(Init(xs));
      assert forall k :: 0 <= k < |xs| - 1 ==> xs[k] == Init(xs)[k];
    }
  }

  // ----- allow_origins -----

  /** Every parsed origin is non-empty, has no surrounding whitespace and no
      comma. */
  lemma ParseOriginsShape(csv: string)
    ensures forall o :: o in ParseOrigins(csv) ==> IsOrigin(o)
  {
    var segs := SplitOnComma(csv);
    var stripped := StripAll(segs);
    NonEmptyMembers(stripped);
    forall o | o in ParseOrigins(csv) ensures IsOrigin(o) {
      var k :| 0 <= k < |stripped| && stripped[k] == o;
      var _, _ := StripSlice(segs[k]);
      StripKeepsCharacters(segs[k], ',');
    }
  }

  /** The parsed origins are the stripped non-blank pieces of the split, in
      the order the pieces appear, none left out. `idx` gives the piece each
      origin came from. */
  lemma ParseOriginsOrder(csv: string) returns (idx: seq<nat>)
    ensures |idx| == |ParseOrigins(csv)|
    ensures forall k :: 0 <= k < |idx| ==>
      idx[k] < |SplitOnComma(csv)| && ParseOrigins(csv)[k] == Strip(SplitOnComma(csv)[idx[k]])
    ensures forall k, l :: 0 <= k < l < |idx| ==> idx[k] < idx[l]
    ensures forall i :: 0 <= i < |SplitOnComma(csv)| && Strip(SplitOnComma(csv)[i]) != [] ==> i in idx
  {
    idx := NonEmptyOrder(StripAll(SplitOnComma(csv)));
  }

  /** There are at most one more origins than commas. */
  lemma ParseOriginsCount(csv: string)
    ensures |ParseOrigins(csv)| <= CountCommas(csv) + 1
  {
  }

  /** Stripped pieces are kept as they are by the strip step. */
  lemma StripAllFixed(parts: seq<string>)
    requires forall k :: 0 <= k < |parts| ==> IsStripped(parts[k])
    ensures StripAll(parts) == parts
  {
    forall k | 0 <= k < |parts| ensures StripAll(parts)[k] == parts[k] {
      StripFixedIff(parts[k]);
    }
  }

  /** The empty string parses to no origins. */
  lemma ParseEmptyString()
    ensures ParseOrigins([]) == []
  {
    assert SplitOnComma([]) == [[]];
    assert StripAll([[]]) == [Strip([])];
  }

  /** Parsing the comma-joined origins gives the same origins. */
  lemma ParseJoinOrigins(parts: seq<string>)
    requires forall k :: 0 <= k < |parts| ==> IsOrigin(parts[k])
    ensures ParseOrigins(Join(parts)) == parts
  {
    if parts == [] {
      ParseEmptyString();
    } else {
      SplitJoin(parts);
      StripAllFixed(parts);
      NonEmptyFixed(parts);
    }
  }

  /** Round trip: joining the parsed origins with "," and parsing again gives
      the same list. */
  lemma ParseOriginsRoundTrip(csv: string)
    ensures ParseOrigins(Join(ParseOrigins(csv))) == ParseOrigins(csv)
  {
    ParseOriginsShape(csv);
    ParseJoinOrigins(ParseOrigins(csv));
  }

  /** The result is empty exactly when the input holds only commas and
      whitespace (the empty string included). */
  lemma ParseOriginsEmptyIff(csv: string)
    ensures ParseOrigins(csv) == [] <==> forall k :: 0 <= k < |csv| ==> csv[k] == ',' || IsSpace(csv[k])
  {
    var segs := SplitOnComma(csv);
    var stripped := StripAll(segs);
    NonEmptyEmptyIff(stripped);
    JoinSplit(csv);
    if forall k :: 0 <= k < |csv| ==> csv[k] == ',' || IsSpace(csv[k]) {
      forall k | 0 <= k < |segs| ensures stripped[k] == [] {
        forall m | 0 <= m < |segs[k]| ensures IsSpace(segs[k][m]) {
          var c := segs[k][m];
          assert c in segs[k];
          JoinKeepsPiece(segs, k, c);
        }
        StripEmptyIff(segs[k]);
      }
    } else {
      var m :| 0 <= m < |csv| && csv[m] != ',' && !IsSpace(csv[m]);
      JoinCharacter(segs, csv[m]);
      var k :| 0 <= k < |segs| && csv[m] in segs[k];
      StripEmptyIff(segs[k]);
      assert stripped[k] != [];
    }
  }

  /** Every character of a piece is in the join. */
  lemma {:induction false} JoinKeepsPiece(parts: seq<string>, k: nat, c: char)
    requires k < |parts| && c in parts[k]
    ensures c in Join(parts)
  {
    if |parts| > 1 && k > 0 {
      JoinKeepsPiece(parts[1..], k - 1, c);
    }
  }

  /** With no environment variable set the only origin is
      http://localhost:3000. */
  lemma DefaultOrigins()
    ensures Defaults().AllowOrigins() == ["http://localhost:3000"]
  {
    var csv := DefaultAllowOrigins;
    assert IsOrigin(csv);
    ParseJoinOrigins([csv]);
    assert Join([csv]) == csv;
  }
}
