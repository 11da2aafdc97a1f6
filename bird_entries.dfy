/**
 * Reading the bird list out of the guide's LaTeX source: every
 * `\birdentry{Common Name}{\textit{Latin name}}` occurrence, left to right,
 * with the Latin name brought up to date through the table of known
 * taxonomic changes.
 */
module BirdEntries {
  import opened Common
  import opened Text

  /** Old scientific names mapped to the names the current taxonomy uses, in
      the order of the source table, written as the union of its first 24 and
      its last 24 entries. No key occurs in both halves, so the union is the
      table itself. */
  const TaxonomicUpdates: map<string, string> := UpdatesFirstHalf + UpdatesSecondHalf

  const UpdatesFirstHalf: map<string, string> := map[
    "Milvus migrans" := "Milvus migrans",
    "Accipiter badius" := "Accipiter badius",
    "Amaurornis phoenicurus" := "Zapornia phoenicurus",
    "Ardeola grayii" := "Ardeola grayii",
    "Nycticorax nycticorax" := "Nycticorax nycticorax",
    "Bubulcus ibis" := "Bubulcus ibis",
    "Egretta garzetta" := "Egretta garzetta",
    "Columba livia" := "Columba livia",
    "Streptopelia chinensis" := "Spilopelia chinensis",
    "Streptopelia senegalensis" := "Spilopelia senegalensis",
    "Vanellus indicus" := "Vanellus indicus",
    "Eudynamys scolopacea" := "Eudynamys scolopaceus",
    "Centropus sinensis" := "Centropus sinensis",
    "Psittacula krameri" := "Psittacula krameri",
    "Psittacula eupatria" := "Alexandrinus eupatria",
    "Psittacula cyanocephala" := "Psittacula cyanocephala",
    "Apus affinis" := "Apus affinis",
    "Halcyon smyrnensis" := "Halcyon smyrnensis",
    "Megalaima haemacephala" := "Psilopogon haemacephalus",
    "Hirundo concolor" := "Ptyonoprogne concolor",
    "Hirundo rustica" := "Hirundo rustica",
    "Hirundo daurica" := "Cecropis daurica",
    "Hirundo smithii" := "Hirundo smithii",
    "Lanius schach" := "Lanius schach"
  ]

  const UpdatesSecondHalf: map<string, string> := map[
    "Oriolus oriolus" := "Oriolus oriolus",
    "Dicrurus macrocercus" := "Dicrurus macrocercus",
    "Dicrurus leucophaeus" := "Dicrurus leucophaeus",
    "Acridotheres tristis" := "Acridotheres tristis",
    "Copsychus saularis" := "Copsychus saularis",
    "Pycnonotus cafer" := "Pycnonotus cafer",
    "Pycnonotus jocosus" := "Pycnonotus jocosus",
    "Turdoides malcolmi" := "Argya malcolmi",
    "Muscicapa tickelliae" := "Cyornis tickelliae",
    "Prinia socialis" := "Prinia socialis",
    "Prinia sylvatica" := "Prinia sylvatica",
    "Passer domesticus" := "Passer domesticus",
    "Ploceus philippinus" := "Ploceus philippinus",
    "Copsychus fulicatus" := "Saxicoloides fulicatus",
    "Zosterops palpebrosus" := "Zosterops palpebrosus",
    "Lonchura punctulata" := "Lonchura punctulata",
    "Corvus splendens" := "Corvus splendens",
    "Corvus macrorhynchos" := "Corvus macrorhynchos",
    "Athene brama" := "Athene brama",
    "Ocyceros birostris" := "Ocyceros birostris",
    "Coracias benghalensis" := "Coracias benghalensis",
    "Coracina melanoptera" := "Coracina melanoptera",
    "Pericrocotus cinnamomeus" := "Pericrocotus cinnamomeus",
    "Dicaeum erythrorhynchos" := "Dicaeum erythrorhynchos"
  ]

  /** The key set of each half of the table (`FirstHalfKeysListed` and
      `SecondHalfKeysListed` show that these are exactly the keys). */
  const FirstHalfKeys: set<string> := {
    "Milvus migrans",
    "Accipiter badius",
    "Amaurornis phoenicurus",
    "Ardeola grayii",
    "Nycticorax nycticorax",
    "Bubulcus ibis",
    "Egretta garzetta",
    "Columba livia",
    "Streptopelia chinensis",
    "Streptopelia senegalensis",
    "Vanellus indicus",
    "Eudynamys scolopacea",
    "Centropus sinensis",
    "Psittacula krameri",
    "Psittacula eupatria",
    "Psittacula cyanocephala",
    "Apus affinis",
    "Halcyon smyrnensis",
    "Megalaima haemacephala",
    "Hirundo concolor",
    "Hirundo rustica",
    "Hirundo daurica",
    "Hirundo smithii",
    "Lanius schach"
  }

  const SecondHalfKeys: set<string> := {
    "Oriolus oriolus",
    "Dicrurus macrocercus",
    "Dicrurus leucophaeus",
    "Acridotheres tristis",
    "Copsychus saularis",
    "Pycnonotus cafer",
    "Pycnonotus jocosus",
    "Turdoides malcolmi",
    "Muscicapa tickelliae",
    "Prinia socialis",
    "Prinia sylvatica",
    "Passer domesticus",
    "Ploceus philippinus",
    "Copsychus fulicatus",
    "Zosterops palpebrosus",
    "Lonchura punctulata",
    "Corvus splendens",
    "Corvus macrorhynchos",
    "Athene brama",
    "Ocyceros birostris",
    "Coracias benghalensis",
    "Coracina melanoptera",
    "Pericrocotus cinnamomeus",
    "Dicaeum erythrorhynchos"
  }

  lemma FirstHalfKeysListed()
    ensures UpdatesFirstHalf.Keys == FirstHalfKeys
  {
  }

  lemma SecondHalfKeysListed()
    ensures UpdatesSecondHalf.Keys == SecondHalfKeys
  {
  }

  /** The value set of the table, restricted to the entries that change a
      name: the names something is renamed into. */
  const RenamedTo: set<string> := {
    "Zapornia phoenicurus",
    "Spilopelia chinensis",
    "Spilopelia senegalensis",
    "Eudynamys scolopaceus",
    "Alexandrinus eupatria",
    "Psilopogon haemacephalus",
    "Ptyonoprogne concolor",
    "Cecropis daurica",
    "Argya malcolmi",
    "Cyornis tickelliae",
    "Saxicoloides fulicatus"
  }

  /** `TAXONOMIC_UPDATES.get(latin, latin)`. */
  function Normalize(latin: string): string {
    if latin in TaxonomicUpdates then TaxonomicUpdates[latin] else latin
  }

  lemma FirstHalfKeepsOrRenames()
    ensures forall k :: k in UpdatesFirstHalf ==> UpdatesFirstHalf[k] == k || UpdatesFirstHalf[k] in RenamedTo
  {
  }

  lemma SecondHalfKeepsOrRenames()
    ensures forall k :: k in UpdatesSecondHalf ==> UpdatesSecondHalf[k] == k || UpdatesSecondHalf[k] in RenamedTo
  {
  }

  lemma RenamedNotInFirstHalf()
    ensures forall v :: v in RenamedTo ==> v !in FirstHalfKeys
  {
  }

  lemma RenamedNotInSecondHalf()
    ensures forall v :: v in RenamedTo ==> v !in SecondHalfKeys
  {
  }

  /** Normalising an already normalised name changes nothing: every value of
      the table is either no key at all or a key mapped to itself. */
  lemma NormalizeIdempotent(latin: string)
    ensures Normalize(Normalize(latin)) == Normalize(latin)
  {
    FirstHalfKeepsOrRenames();
    SecondHalfKeepsOrRenames();
    RenamedNotInFirstHalf();
    RenamedNotInSecondHalf();
    FirstHalfKeysListed();
    SecondHalfKeysListed();
    UnionLookupTwice(UpdatesFirstHalf, UpdatesSecondHalf, RenamedTo, latin);
  }

  /** Looking a name up twice in the union of two tables gives what one lookup
      gives, when each table keeps or renames its keys and no renamed value is
      a key of either. */
  lemma UnionLookupTwice(first: map<string, string>, second: map<string, string>, renamed: set<string>, latin: string)
    requires forall k :: k in first ==> first[k] == k || first[k] in renamed
    requires forall k :: k in second ==> second[k] == k || second[k] in renamed
    requires forall v :: v in renamed ==> v !in first.Keys && v !in second.Keys
    ensures var table := first + second;
      var once := if latin in table then table[latin] else latin;
      (if once in table then table[once] else once) == once
  {
  }

  /** The White-breasted Waterhen's old name is brought up to date, and the
      new name is left alone. */
  lemma NormalizeWaterhen()
    ensures Normalize("Amaurornis phoenicurus") == "Zapornia phoenicurus"
    ensures Normalize("Zapornia phoenicurus") == "Zapornia phoenicurus"
  {
    WaterhenOldNameRenamed();
    WaterhenNewNameKept();
  }

  lemma WaterhenOldNameRenamed()
    ensures Normalize("Amaurornis phoenicurus") == "Zapornia phoenicurus"
  {
    WaterhenInFirstHalf();
    WaterhenNotInSecondHalf();
    UnionLookupFirst(UpdatesFirstHalf, UpdatesSecondHalf, "Amaurornis phoenicurus");
  }

  lemma WaterhenInFirstHalf()
    ensures "Amaurornis phoenicurus" in UpdatesFirstHalf
    ensures UpdatesFirstHalf["Amaurornis phoenicurus"] == "Zapornia phoenicurus"
  {
  }

  lemma WaterhenNotInSecondHalf()
    ensures "Amaurornis phoenicurus" !in UpdatesSecondHalf.Keys
  {
    assert "Amaurornis phoenicurus" !in SecondHalfKeys;
    SecondHalfKeysListed();
  }

  /** A key of the first table only is looked up in the first table. */
  lemma UnionLookupFirst(first: map<string, string>, second: map<string, string>, k: string)
    requires k in first && k !in second.Keys
    ensures k in first + second && (first + second)[k] == first[k]
  {
  }

  lemma WaterhenNewNameKept()
    ensures Normalize("Zapornia phoenicurus") == "Zapornia phoenicurus"
  {
    var name := "Zapornia phoenicurus";
    assert name in RenamedTo;
    RenamedNotInFirstHalf();
    RenamedNotInSecondHalf();
    FirstHalfKeysListed();
    SecondHalfKeysListed();
  }

  /** A bird as the guide lists it. */
  datatype BirdQuery = BirdQuery(commonName: string, latinName: string)

  /** The two captured groups of one match and the number of characters it spans. */
  datatype EntryMatch = EntryMatch(common: string, latin: string, length: nat)

  const EntryOpen := "\\birdentry{"
  const EntrySeparator := "}{\\textit{"

  /** The text the pattern matches for the given groups. */
  function EntryText(common: string, latin: string): string {
    EntryOpen + common + EntrySeparator + latin + "}"
  }

  /** The pattern `\\birdentry{([^}]*)}{\\textit{([^}]*)}` tried at the start of
      `s`; each group takes the longest run without a closing brace. */
  function MatchEntry(s: string): (r: Option<EntryMatch>)
    ensures r.Some? ==> 0 < r.value.length <= |s|
    ensures r.Some? ==> '}' !in r.value.common && '}' !in r.value.latin
  {
    if !StartsWith(s, EntryOpen) then None
    else
      var common := UpTo(s[|EntryOpen|..], '}');
      var j := |EntryOpen| + |common|;
      if !OccursAt(s, EntrySeparator, j) then None
      else
        var k := j + |EntrySeparator|;
        var latin := UpTo(s[k..], '}');
        var e := k + |latin|;
        if e == |s| then None
        else Some(EntryMatch(common, latin, e + 1))
  }

  /** A match covers exactly the text of an entry with its two groups. */
  lemma MatchEntrySound(s: string)
    requires MatchEntry(s).Some?
    ensures var m := MatchEntry(s).value;
      m.length == |EntryText(m.common, m.latin)| && s[..m.length] == EntryText(m.common, m.latin)
  {
    var m := MatchEntry(s).value;
    var i := |EntryOpen|;
    var common := UpTo(s[i..], '}');
    var j := i + |common|;
    var k := j + |EntrySeparator|;
    var latin := UpTo(s[k..], '}');
    var e := k + |latin|;
    UpToShape(s[i..], '}');
    UpToShape(s[k..], '}');
    assert m == EntryMatch(common, latin, e + 1);
    assert s[i..j] == common by { assert s[i..][..|common|] == s[i..j]; }
    assert s[k..e] == latin by { assert s[k..][..|latin|] == s[k..e]; }
    assert s[e] == '}' by { assert s[k..][|latin|] == s[e]; }
    SliceSplit(s, 0, i, j);
    SliceSplit(s, 0, j, k);
    SliceSplit(s, 0, k, e);
    SliceSplit(s, 0, e, e + 1);
  }

  /** Adjacent slices of a string join up. */
  lemma SliceSplit(s: string, i: nat, j: nat, k: nat)
    requires i <= j <= k <= |s|
    ensures s[i..k] == s[i..j] + s[j..k]
  {
  }

  /** Every entry whose groups hold no closing brace is matched, whatever follows. */
  lemma MatchEntryComplete(common: string, latin: string, t: string)
    requires '}' !in common && '}' !in latin
    ensures MatchEntry(EntryText(common, latin) + t)
      == Some(EntryMatch(common, latin, |EntryText(common, latin)|))
  {
    var s := EntryText(common, latin) + t;
    var j := |EntryOpen| + |common|;
    var k := j + |EntrySeparator|;
    assert s == EntryOpen + (common + ['}'] + (EntrySeparator[1..] + latin + "}" + t));
    assert s[..|EntryOpen|] == EntryOpen;
    assert s[|EntryOpen|..] == common + ['}'] + (EntrySeparator[1..] + latin + "}" + t);
    UpToStopsAt(common, '}', EntrySeparator[1..] + latin + "}" + t);
    assert s == (EntryOpen + common) + EntrySeparator + (latin + ['}'] + t);
    assert s[j..k] == EntrySeparator;
    assert OccursAt(s, EntrySeparator, j);
    assert s[k..] == latin + ['}'] + t;
    UpToStopsAt(latin, '}', t);
  }

  /** `re.finditer` over `s`: a match is tried at each position from the left,
      and the search resumes right after each match. */
  function Matches(s: string): (r: seq<EntryMatch>)
    decreases |s|
  {
    if s == [] then []
    else match MatchEntry(s)
      case Some(m) => [m] + Matches(s[m.length..])
      case None => Matches(s[1..])
  }

  /** The record `extract_bird_info` appends for one match. */
  function AsQuery(m: EntryMatch): BirdQuery {
    BirdQuery(m.common, Normalize(m.latin))
  }

  function Queries(ms: seq<EntryMatch>): (r: seq<BirdQuery>)
    ensures |r| == |ms|
  {
    if ms == [] then [] else [AsQuery(ms[0])] + Queries(ms[1..])
  }

  /** The record at each position is the one for the match at that position. */
  lemma {:induction false} QueriesAt(ms: seq<EntryMatch>)
    ensures forall j :: 0 <= j < |ms| ==> Queries(ms)[j] == AsQuery(ms[j])
    decreases |ms|
  {
    if ms != [] {
      QueriesAt(ms[1..]);
    }
  }

  /** `extract_bird_info`: the loop over the matches of `finditer`, appending
      one record per match. */
  method ExtractBirdInfo(content: string) returns (birds: seq<BirdQuery>)
    ensures birds == Queries(Matches(content))
  {
    var matches := Matches(content);
    birds := [];
    for i := 0 to |matches|
      invariant |birds| == i
      invariant forall j :: 0 <= j < i ==> birds[j] == AsQuery(matches[j])
    {
      birds := birds + [AsQuery(matches[i])];
    }
    QueriesAt(matches);
  }

  /** No extracted name holds a closing brace, and every Latin name is already
      in its current form. */
  lemma {:induction false} ExtractedNamesAreClean(s: string)
    ensures forall k :: 0 <= k < |Queries(Matches(s))| ==>
      '}' !in Queries(Matches(s))[k].commonName
      && Normalize(Queries(Matches(s))[k].latinName) == Queries(Matches(s))[k].latinName
    decreases |s|
  {
    if s != [] {
      match MatchEntry(s)
      case Some(m) =>
        ExtractedNamesAreClean(s[m.length..]);
        NormalizeIdempotent(m.latin);
      case None =>
        ExtractedNamesAreClean(s[1..]);
    }
  }

  /** The guide's markup for a list of birds: each entry followed by the brace
      that closes the second argument of `\\birdentry`. */
  function Render(qs: seq<BirdQuery>): string {
    if qs == [] then [] else EntryText(qs[0].commonName, qs[0].latinName) + "}" + Render(qs[1..])
  }

  function NormalizeAll(qs: seq<BirdQuery>): (r: seq<BirdQuery>)
    ensures |r| == |qs|
  {
    if qs == [] then [] else [BirdQuery(qs[0].commonName, Normalize(qs[0].latinName))] + NormalizeAll(qs[1..])
  }

  /** Extraction recovers every rendered bird, in order, with its Latin name
      normalised. */
  lemma {:induction false} ExtractRendered(qs: seq<BirdQuery>)
    requires forall k :: 0 <= k < |qs| ==> '}' !in qs[k].commonName && '}' !in qs[k].latinName
    ensures Queries(Matches(Render(qs))) == NormalizeAll(qs)
  {
    if qs != [] {
      var m := EntryMatch(qs[0].commonName, qs[0].latinName, |EntryText(qs[0].commonName, qs[0].latinName)|);
      var later := Matches(Render(qs[1..]));
      MatchesAfterEntry(qs[0].commonName, qs[0].latinName, Render(qs[1..]));
      assert Matches(Render(qs)) == [m] + later;
      assert ([m] + later)[1..] == later;
      assert Queries([m] + later) == [AsQuery(m)] + Queries(later);
      assert forall k :: 0 <= k < |qs[1..]| ==> qs[1..][k] == qs[k + 1];
      ExtractRendered(qs[1..]);
    }
  }

  /** The scan over an entry, its closing brace and more text: the entry's
      match, then the matches of the text that follows. */
  lemma MatchesAfterEntry(common: string, latin: string, rest: string)
    requires '}' !in common && '}' !in latin
    ensures Matches(EntryText(common, latin) + "}" + rest)
      == [EntryMatch(common, latin, |EntryText(common, latin)|)] + Matches(rest)
  {
    var e := EntryText(common, latin);
    MatchEntryComplete(common, latin, "}" + rest);
    assert e + "}" + rest == e + ("}" + rest);
    assert (e + ("}" + rest))[|e|..] == "}" + rest;
    assert !StartsWith("}" + rest, EntryOpen) by {
      if |EntryOpen| <= |"}" + rest| {
        assert ("}" + rest)[..|EntryOpen|][0] == '}';
      }
    }
    assert ("}" + rest)[1..] == rest;
  }
}
