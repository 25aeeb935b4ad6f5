/** `ExternalUriSelection::getReferenceableEntities`
    (src/Plugin/EntityReferenceSelection/ExternalUriSelection.php): the
    options offered by the taxonomy-term selection are pruned to the terms
    that carry an external URI. The parent selection's result and term
    loading are inputs. */
module ExternalUriSelection {
  import opened Php
  import opened Sequences
  import Utils

  /** A vocabulary id. */
  type Vid = string
  /** A taxonomy term id. */
  type Tid = int

  /** One selectable term: its id and its label (`caption`). */
  datatype Entry = Entry(tid: Tid, caption: string)
  /** The options of one vocabulary, in the order offered. */
  datatype Group = Group(vid: Vid, terms: seq<Entry>)
  /** The two-level options array: vocabulary id => (term id => label). */
  type Options = seq<Group>

  /** One flattened option: vocabulary, term id and label. */
  datatype Row = Row(vid: Vid, tid: Tid, caption: string)

  /** Why the whole call is aborted. */
  datatype SelectionError =
    /** A term id did not load, and `Utils::getUriForTerm` refuses NULL for
        its `TermInterface` parameter. */
    | TermNotLoaded

  function Vids(opts: Options): (r: seq<Vid>)
    ensures |r| == |opts|
    ensures forall i :: 0 <= i < |opts| ==> r[i] == opts[i].vid
  {
    seq(|opts|, i requires 0 <= i < |opts| => opts[i].vid)
  }

  function Tids(terms: seq<Entry>): (r: seq<Tid>)
    ensures |r| == |terms|
    ensures forall i :: 0 <= i < |terms| ==> r[i] == terms[i].tid
  {
    seq(|terms|, i requires 0 <= i < |terms| => terms[i].tid)
  }

  /** The options are a PHP array: distinct vocabulary ids, and distinct
      term ids within each vocabulary. */
  predicate WellFormed(opts: Options)
  {
    && Distinct(Vids(opts))
    && forall g :: g in opts ==> Distinct(Tids(g.terms))
  }

  /** Term `e` is offered under vocabulary `vid`. */
  predicate Listed(opts: Options, vid: Vid, e: Entry)
  {
    exists g :: g in opts && g.vid == vid && e in g.terms
  }

  function EntryRows(vid: Vid, terms: seq<Entry>): (r: seq<Row>)
    ensures |r| == |terms|
    ensures forall i :: 0 <= i < |terms| ==> r[i] == Row(vid, terms[i].tid, terms[i].caption)
  {
    seq(|terms|, i requires 0 <= i < |terms| => Row(vid, terms[i].tid, terms[i].caption))
  }

  /** The options flattened in the order `foreach` visits them. */
  function Rows(opts: Options): seq<Row>
  {
    if |opts| == 0 then [] else EntryRows(opts[0].vid, opts[0].terms) + Rows(opts[1..])
  }

  /** A term is kept when its URI is not PHP-`empty`. */
  predicate Resolvable(uriOf: Tid -> Option<string>, tid: Tid)
  {
    !IsEmpty(uriOf(tid))
  }

  /** The inner loop: `unset` every term whose URI is empty. */
  function PruneTerms(terms: seq<Entry>, uriOf: Tid -> Option<string>): (r: seq<Entry>)
    ensures forall e :: e in r <==> e in terms && Resolvable(uriOf, e.tid)
  {
    if |terms| == 0 then []
    else
      var rest := PruneTerms(terms[1..], uriOf);
      assert forall e :: e in terms <==> e == terms[0] || e in terms[1..];
      if Resolvable(uriOf, terms[0].tid) then [terms[0]] + rest else rest
  }

  /** The outer loop: prune each vocabulary's terms, then `unset` the
      vocabulary when nothing is left in it. */
  function PruneGroups(opts: Options, uriOf: Tid -> Option<string>): (r: Options)
    ensures |r| <= |opts|
    ensures forall g :: g in r ==> |g.terms| > 0
    ensures forall g, e :: g in r && e in g.terms ==> Resolvable(uriOf, e.tid)
  {
    if |opts| == 0 then []
    else
      var kept := PruneTerms(opts[0].terms, uriOf);
      var rest := PruneGroups(opts[1..], uriOf);
      if |kept| == 0 then rest else [Group(opts[0].vid, kept)] + rest
  }

  lemma ListedCons(g: Group, rest: Options)
    ensures forall vid, e :: Listed([g] + rest, vid, e) <==> (g.vid == vid && e in g.terms) || Listed(rest, vid, e)
  {
  }

  /** Exactly the offered terms whose URI is not empty survive, under the
      same vocabulary and with the same label: the output is a sub-map of
      the input and nothing resolvable is lost. */
  lemma {:induction false} PruneKeepsExactlyResolvable(opts: Options, uriOf: Tid -> Option<string>)
    ensures forall vid, e :: Listed(PruneGroups(opts, uriOf), vid, e) <==> Listed(opts, vid, e) && Resolvable(uriOf, e.tid)
    decreases |opts|
  {
    if |opts| > 0 {
      var g := opts[0];
      var kept := PruneTerms(g.terms, uriOf);
      var rest := PruneGroups(opts[1..], uriOf);
      PruneKeepsExactlyResolvable(opts[1..], uriOf);
      assert opts == [g] + opts[1..];
      ListedCons(g, opts[1..]);
      if |kept| > 0 {
        ListedCons(Group(g.vid, kept), rest);
      } else {
        assert forall e :: e !in kept;
      }
    }
  }

  lemma {:induction false} PruneTermsInOrder(vid: Vid, terms: seq<Entry>, uriOf: Tid -> Option<string>)
    ensures IsSubsequence(PruneTerms(terms, uriOf), terms)
    ensures IsSubsequence(EntryRows(vid, PruneTerms(terms, uriOf)), EntryRows(vid, terms))
    decreases |terms|
  {
    if |terms| > 0 {
      PruneTermsInOrder(vid, terms[1..], uriOf);
      var rest := PruneTerms(terms[1..], uriOf);
      assert EntryRows(vid, terms)[1..] == EntryRows(vid, terms[1..]);
      if Resolvable(uriOf, terms[0].tid) {
        assert ([terms[0]] + rest)[1..] == rest;
        assert EntryRows(vid, [terms[0]] + rest)[1..] == EntryRows(vid, rest);
      }
    }
  }

  /** Surviving vocabularies keep their relative order. */
  lemma {:induction false} PruneKeepsVocabularyOrder(opts: Options, uriOf: Tid -> Option<string>)
    ensures IsSubsequence(Vids(PruneGroups(opts, uriOf)), Vids(opts))
    decreases |opts|
  {
    if |opts| > 0 {
      var kept := PruneTerms(opts[0].terms, uriOf);
      var rest := PruneGroups(opts[1..], uriOf);
      PruneKeepsVocabularyOrder(opts[1..], uriOf);
      assert Vids(opts)[1..] == Vids(opts[1..]);
      if |kept| > 0 {
        var r := [Group(opts[0].vid, kept)] + rest;
        assert r[1..] == rest;
        assert Vids(r)[1..] == Vids(rest);
      }
    }
  }

  /** Removal is in place: surviving terms keep their relative order, within
      and across vocabularies, and stay under their vocabulary. */
  lemma {:induction false} PruneKeepsTermOrder(opts: Options, uriOf: Tid -> Option<string>)
    ensures IsSubsequence(Rows(PruneGroups(opts, uriOf)), Rows(opts))
    decreases |opts|
  {
    if |opts| > 0 {
      var g := opts[0];
      var kept := PruneTerms(g.terms, uriOf);
      var rest := PruneGroups(opts[1..], uriOf);
      PruneKeepsTermOrder(opts[1..], uriOf);
      PruneTermsInOrder(g.vid, g.terms, uriOf);
      assert Rows(opts) == EntryRows(g.vid, g.terms) + Rows(opts[1..]);
      if |kept| > 0 {
        var r := [Group(g.vid, kept)] + rest;
        assert r[0] == Group(g.vid, kept) && r[1..] == rest;
        assert Rows(r) == EntryRows(g.vid, kept) + Rows(rest);
        SubsequenceAppend(EntryRows(g.vid, kept), EntryRows(g.vid, g.terms), Rows(rest), Rows(opts[1..]));
      } else {
        assert PruneGroups(opts, uriOf) == rest;
        assert EntryRows(g.vid, kept) == [];
        SubsequenceAppend([], EntryRows(g.vid, g.terms), Rows(rest), Rows(opts[1..]));
        assert [] + Rows(rest) == Rows(rest);
      }
    }
  }

  /** Pruning keeps the options a well-formed PHP array. */
  lemma PrunePreservesWellFormed(opts: Options, uriOf: Tid -> Option<string>)
    requires WellFormed(opts)
    ensures WellFormed(PruneGroups(opts, uriOf))
  {
    var r := PruneGroups(opts, uriOf);
    PruneKeepsVocabularyOrder(opts, uriOf);
    SubsequenceDistinct(Vids(r), Vids(opts));
    forall g | g in r
      ensures Distinct(Tids(g.terms))
    {
      PruneGroupOrigin(opts, uriOf, g);
      var g0 :| g0 in opts && g == Group(g0.vid, PruneTerms(g0.terms, uriOf));
      PruneTermsInOrder(g0.vid, g0.terms, uriOf);
      TidsInOrder(g.terms, g0.terms);
      SubsequenceDistinct(Tids(g.terms), Tids(g0.terms));
    }
  }

  /** Each output vocabulary is an input vocabulary with its terms pruned. */
  lemma {:induction false} PruneGroupOrigin(opts: Options, uriOf: Tid -> Option<string>, g: Group)
    requires g in PruneGroups(opts, uriOf)
    ensures exists g0 :: g0 in opts && g == Group(g0.vid, PruneTerms(g0.terms, uriOf))
    decreases |opts|
  {
    var kept := PruneTerms(opts[0].terms, uriOf);
    var rest := PruneGroups(opts[1..], uriOf);
    if g in rest {
      PruneGroupOrigin(opts[1..], uriOf, g);
      var g0 :| g0 in opts[1..] && g == Group(g0.vid, PruneTerms(g0.terms, uriOf));
      assert g0 in opts;
    } else {
      assert opts[0] in opts;
    }
  }

  /** A vocabulary none of whose terms has a URI disappears entirely. */
  lemma PruneDropsEmptyVocabulary(opts: Options, uriOf: Tid -> Option<string>, g: Group)
    requires WellFormed(opts)
    requires g in opts
    requires forall e :: e in g.terms ==> !Resolvable(uriOf, e.tid)
    ensures g.vid !in Vids(PruneGroups(opts, uriOf))
  {
    var r := PruneGroups(opts, uriOf);
    forall j | 0 <= j < |r|
      ensures Vids(r)[j] != g.vid
    {
      PruneGroupOrigin(opts, uriOf, r[j]);
      var g0 :| g0 in opts && r[j] == Group(g0.vid, PruneTerms(g0.terms, uriOf));
      var e := r[j].terms[0];
      assert e in g0.terms && Resolvable(uriOf, e.tid);
      assert g0 != g;
      var i :| 0 <= i < |opts| && opts[i] == g;
      var i0 :| 0 <= i0 < |opts| && opts[i0] == g0;
      assert Vids(opts)[i] != Vids(opts)[i0];
    }
  }

  lemma {:induction false} TidsInOrder(a: seq<Entry>, b: seq<Entry>)
    requires IsSubsequence(a, b)
    ensures IsSubsequence(Tids(a), Tids(b))
    decreases |b|
  {
    if |b| > 0 {
      assert Tids(b)[1..] == Tids(b[1..]);
      if |a| > 0 && a[0] == b[0] && IsSubsequence(a[1..], b[1..]) {
        TidsInOrder(a[1..], b[1..]);
        assert Tids(a)[1..] == Tids(a[1..]);
      } else {
        TidsInOrder(a, b[1..]);
      }
    }
  }

  lemma {:induction false} PruneTermsIdempotent(terms: seq<Entry>, uriOf: Tid -> Option<string>)
    ensures PruneTerms(PruneTerms(terms, uriOf), uriOf) == PruneTerms(terms, uriOf)
    decreases |terms|
  {
    if |terms| > 0 {
      var rest := PruneTerms(terms[1..], uriOf);
      PruneTermsIdempotent(terms[1..], uriOf);
      if Resolvable(uriOf, terms[0].tid) {
        assert ([terms[0]] + rest)[1..] == rest;
      }
    }
  }

  /** Pruning again with the same term data changes nothing. */
  lemma {:induction false} PruneIdempotent(opts: Options, uriOf: Tid -> Option<string>)
    ensures PruneGroups(PruneGroups(opts, uriOf), uriOf) == PruneGroups(opts, uriOf)
    decreases |opts|
  {
    if |opts| > 0 {
      var kept := PruneTerms(opts[0].terms, uriOf);
      var rest := PruneGroups(opts[1..], uriOf);
      PruneIdempotent(opts[1..], uriOf);
      if |kept| > 0 {
        var r := [Group(opts[0].vid, kept)] + rest;
        assert r[0] == Group(opts[0].vid, kept);
        assert r[1..] == rest;
        PruneTermsIdempotent(opts[0].terms, uriOf);
      }
    }
  }

  // ---------------------------------------------------------------------
  // The method itself

  /** Every offered term id loads. */
  predicate AllTermsLoad(opts: Options, load: Tid -> Option<Utils.Term>)
  {
    forall g, e :: g in opts && e in g.terms ==> load(e.tid).Some?
  }

  /** The URI of each term id as `getReferenceableEntities` computes it:
      load the term, then `Utils::getUriForTerm`. */
  function UriLookup(fm: Utils.FieldMap, load: Tid -> Option<Utils.Term>): Tid -> Option<string>
  {
    tid => if load(tid).Some? then Utils.UriForTerm(fm, load(tid).value) else None
  }

  /** The term behind `tid` loads and has a URI that is not empty. */
  predicate HasExternalUri(fm: Utils.FieldMap, load: Tid -> Option<Utils.Term>, tid: Tid)
  {
    load(tid).Some? && !IsEmpty(Utils.UriForTerm(fm, load(tid).value))
  }

  /** Only the first populated field counts: a term is kept exactly when the
      first item of its earliest populated URI field has a `uri` that is not
      empty, whatever its later fields hold. */
  lemma KeptIffFirstPopulatedUriNonEmpty(fm: Utils.FieldMap, term: Utils.Term)
    ensures var fields := Utils.UriFieldNamesForTerms(fm);
      !IsEmpty(Utils.UriForTerm(fm, term)) <==>
        exists k :: Utils.IsFirstPopulated(fields, term, k) && !IsEmpty(Some(term[fields[k]][0].uri))
  {
  }

  /** `getReferenceableEntities`: the parent selection's options, pruned to
      the terms with an external URI. */
  function GetReferenceableEntities(fm: Utils.FieldMap, parentOptions: Options, load: Tid -> Option<Utils.Term>)
    : (r: Result<Options, SelectionError>)
    ensures r.Failure? <==> exists vid, e :: Listed(parentOptions, vid, e) && load(e.tid).None?
    ensures r.Success? ==> forall g :: g in r.value ==> |g.terms| > 0
    ensures r.Success? ==> forall vid, e ::
      Listed(r.value, vid, e) <==> Listed(parentOptions, vid, e) && HasExternalUri(fm, load, e.tid)
  {
    if AllTermsLoad(parentOptions, load) then
      var r := PruneGroups(parentOptions, UriLookup(fm, load));
      PruneKeepsExactlyResolvable(parentOptions, UriLookup(fm, load));
      assert forall tid :: Resolvable(UriLookup(fm, load), tid) <==> HasExternalUri(fm, load, tid);
      Success(r)
    else
      var g, e :| g in parentOptions && e in g.terms && load(e.tid).None?;
      assert Listed(parentOptions, g.vid, e);
      Failure(TermNotLoaded)
  }

  /** Surviving options keep their order, and the result is again a
      well-formed options array. */
  lemma GetReferenceableEntitiesKeepsOrder(fm: Utils.FieldMap, parentOptions: Options, load: Tid -> Option<Utils.Term>)
    requires GetReferenceableEntities(fm, parentOptions, load).Success?
    ensures var out := GetReferenceableEntities(fm, parentOptions, load).value;
      && IsSubsequence(Vids(out), Vids(parentOptions))
      && IsSubsequence(Rows(out), Rows(parentOptions))
      && (WellFormed(parentOptions) ==> WellFormed(out))
  {
    PruneKeepsVocabularyOrder(parentOptions, UriLookup(fm, load));
    PruneKeepsTermOrder(parentOptions, UriLookup(fm, load));
    if WellFormed(parentOptions) {
      PrunePreservesWellFormed(parentOptions, UriLookup(fm, load));
    }
  }

  /** With the same term data, filtering the result a second time returns
      it unchanged. */
  lemma GetReferenceableEntitiesIdempotent(fm: Utils.FieldMap, parentOptions: Options, load: Tid -> Option<Utils.Term>)
    requires GetReferenceableEntities(fm, parentOptions, load).Success?
    ensures var out := GetReferenceableEntities(fm, parentOptions, load).value;
      GetReferenceableEntities(fm, out, load) == Success(out)
  {
    var out := GetReferenceableEntities(fm, parentOptions, load).value;
    assert forall g, e :: g in out && e in g.terms ==> Listed(out, g.vid, e);
    PruneIdempotent(parentOptions, UriLookup(fm, load));
  }
}
