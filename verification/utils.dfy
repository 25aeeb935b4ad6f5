/** The helpers of `Utils` (src/Utils.php): which fields of a taxonomy term
    may hold an external URI, the URI a term carries, the term that carries
    a URI, and the node a media item belongs to. The field-metadata service,
    entity storage and entity query are replaced by the plain data they
    return. */
module Utils {
  import opened Php
  import opened Sequences

  /** The well-known field every term is searched for last. */
  const ExternalUriField: string := "field_external_uri"
  /** The reference field from a media item to the node it belongs to. */
  const MediaOfField: string := "field_media_of"

  const AuthorityLinkType: string := "authority_link"
  const ExternalAuthorityLinkType: string := "field_external_authority_link"

  /** Field types whose fields may hold a term's URI. */
  const BroadTypes: set<string> := {AuthorityLinkType, ExternalAuthorityLinkType}
  /** Field types searched when looking a term up by URI. */
  const NarrowTypes: set<string> := {AuthorityLinkType}

  // ---------------------------------------------------------------------
  // Field map of the `taxonomy_term` entity type

  /** One entry of the field map: a field name and its declared type. */
  datatype FieldInfo = FieldInfo(name: string, fieldType: string)

  /** The `taxonomy_term` part of the field map, in the order PHP iterates
      it. Well formed maps have distinct names (they are array keys). */
  type FieldMap = seq<FieldInfo>

  function Names(fm: FieldMap): (r: seq<string>)
    ensures |r| == |fm|
    ensures forall i :: 0 <= i < |fm| ==> r[i] == fm[i].name
  {
    seq(|fm|, i requires 0 <= i < |fm| => fm[i].name)
  }

  predicate WellFormedFieldMap(fm: FieldMap)
  {
    Distinct(Names(fm))
  }

  /** The field map declares a field `name` whose type is one of `types`. */
  ghost predicate HasFieldOfType(fm: FieldMap, name: string, types: set<string>)
  {
    exists i :: 0 <= i < |fm| && fm[i].name == name && fm[i].fieldType in types
  }

  /** The names of the fields whose type is one of `types`, in field-map
      order: the `foreach` over the field map with its type test. */
  function FieldsOfType(fm: FieldMap, types: set<string>): (r: seq<string>)
    ensures |r| <= |fm|
    ensures forall x :: x in r <==> HasFieldOfType(fm, x, types)
  {
    if |fm| == 0 then []
    else
      var rest := FieldsOfType(fm[1..], types);
      assert forall x :: HasFieldOfType(fm[1..], x, types) ==> HasFieldOfType(fm, x, types) by {
        forall x | HasFieldOfType(fm[1..], x, types)
          ensures HasFieldOfType(fm, x, types)
        {
          var i :| 0 <= i < |fm[1..]| && fm[1..][i].name == x && fm[1..][i].fieldType in types;
          assert fm[i + 1] == fm[1..][i];
        }
      }
      assert forall x :: HasFieldOfType(fm, x, types) ==>
          (x == fm[0].name && fm[0].fieldType in types) || HasFieldOfType(fm[1..], x, types) by {
        forall x | HasFieldOfType(fm, x, types)
          ensures (x == fm[0].name && fm[0].fieldType in types) || HasFieldOfType(fm[1..], x, types)
        {
          var i :| 0 <= i < |fm| && fm[i].name == x && fm[i].fieldType in types;
          if i > 0 {
            assert fm[1..][i - 1] == fm[i];
          }
        }
      }
      (if fm[0].fieldType in types then [fm[0].name] else []) + rest
  }

  /** `getUriFieldNamesForTerms`: every field that may hold a term's URI, in
      the order they are scanned. */
  function UriFieldNamesForTerms(fm: FieldMap): (r: seq<string>)
    ensures |r| >= 1 && r[|r| - 1] == ExternalUriField
    ensures forall x :: x in r[..|r| - 1] <==> HasFieldOfType(fm, x, BroadTypes)
  {
    var r := FieldsOfType(fm, BroadTypes) + [ExternalUriField];
    assert r[..|r| - 1] == FieldsOfType(fm, BroadTypes);
    r
  }

  /** The field list built at the start of `getTermForUri`: the
      `authority_link` fields, then `field_external_uri`. */
  function TermLookupFieldNames(fm: FieldMap): (r: seq<string>)
    ensures |r| >= 1 && r[|r| - 1] == ExternalUriField
    ensures forall x :: x in r[..|r| - 1] <==> HasFieldOfType(fm, x, NarrowTypes)
  {
    var r := FieldsOfType(fm, NarrowTypes) + [ExternalUriField];
    assert r[..|r| - 1] == FieldsOfType(fm, NarrowTypes);
    r
  }

  lemma {:induction false} FieldsOfTypeInOrder(fm: FieldMap, types: set<string>)
    ensures IsSubsequence(FieldsOfType(fm, types), Names(fm))
    decreases |fm|
  {
    if |fm| > 0 {
      FieldsOfTypeInOrder(fm[1..], types);
      var rest := FieldsOfType(fm[1..], types);
      assert Names(fm)[1..] == Names(fm[1..]);
      if fm[0].fieldType in types {
        assert ([fm[0].name] + rest)[1..] == rest;
      } else {
        assert FieldsOfType(fm, types) == rest;
      }
    }
  }

  /** Before its last element, the broad list is a selection of the field
      map's names in field-map order; with distinct names it repeats none. */
  lemma UriFieldNamesInFieldMapOrder(fm: FieldMap)
    ensures var r := UriFieldNamesForTerms(fm);
      IsSubsequence(r[..|r| - 1], Names(fm))
    ensures var r := UriFieldNamesForTerms(fm);
      WellFormedFieldMap(fm) ==> Distinct(r[..|r| - 1])
  {
    var r := UriFieldNamesForTerms(fm);
    assert r[..|r| - 1] == FieldsOfType(fm, BroadTypes);
    FieldsOfTypeInOrder(fm, BroadTypes);
    if WellFormedFieldMap(fm) {
      SubsequenceDistinct(r[..|r| - 1], Names(fm));
    }
  }

  lemma {:induction false} NoFieldsOfType(fm: FieldMap, types: set<string>)
    requires forall i :: 0 <= i < |fm| ==> fm[i].fieldType !in types
    ensures FieldsOfType(fm, types) == []
    decreases |fm|
  {
    if |fm| > 0 {
      NoFieldsOfType(fm[1..], types);
    }
  }

  /** A field map with no field of a URI-bearing type yields the well-known
      field alone. */
  lemma NoUriTypedFields(fm: FieldMap)
    requires forall i :: 0 <= i < |fm| ==> fm[i].fieldType !in BroadTypes
    ensures UriFieldNamesForTerms(fm) == [ExternalUriField]
    ensures TermLookupFieldNames(fm) == [ExternalUriField]
  {
    NoFieldsOfType(fm, BroadTypes);
    NoFieldsOfType(fm, NarrowTypes);
  }

  /** No deduplication: `field_external_uri` is listed twice exactly when
      the field map itself gives it a URI-bearing type. */
  lemma ExternalUriListedTwice(fm: FieldMap)
    requires WellFormedFieldMap(fm)
    ensures var r := UriFieldNamesForTerms(fm);
      multiset(r)[ExternalUriField] == if HasFieldOfType(fm, ExternalUriField, BroadTypes) then 2 else 1
  {
    var b := FieldsOfType(fm, BroadTypes);
    UriFieldNamesInFieldMapOrder(fm);
    var r := UriFieldNamesForTerms(fm);
    assert r[..|r| - 1] == b;
    DistinctCount(b, ExternalUriField);
  }

  lemma {:induction false} DistinctCount<T>(s: seq<T>, x: T)
    requires Distinct(s)
    ensures multiset(s)[x] == if x in s then 1 else 0
    decreases |s|
  {
    if |s| > 0 {
      assert s == [s[0]] + s[1..];
      assert Distinct(s[1..]);
      DistinctCount(s[1..], x);
      if s[0] == x {
        assert x !in s[1..];
      }
    }
  }

  lemma {:induction false} FieldsOfTypeMonotone(fm: FieldMap, small: set<string>, large: set<string>)
    requires small <= large
    ensures IsSubsequence(FieldsOfType(fm, small), FieldsOfType(fm, large))
    decreases |fm|
  {
    if |fm| > 0 {
      FieldsOfTypeMonotone(fm[1..], small, large);
      var s := FieldsOfType(fm[1..], small);
      var l := FieldsOfType(fm[1..], large);
      if fm[0].fieldType in small {
        assert ([fm[0].name] + s)[1..] == s;
        assert ([fm[0].name] + l)[1..] == l;
      } else if fm[0].fieldType in large {
        assert FieldsOfType(fm, small) == s;
        assert ([fm[0].name] + l)[1..] == l;
      } else {
        assert FieldsOfType(fm, small) == s;
        assert FieldsOfType(fm, large) == l;
      }
    }
  }

  /** The list searched by `getTermForUri` is a selection, in the same
      order, of the list scanned by `getUriForTerm`. */
  lemma TermLookupFieldsWithinUriFields(fm: FieldMap)
    ensures IsSubsequence(TermLookupFieldNames(fm), UriFieldNamesForTerms(fm))
    ensures forall x :: x in TermLookupFieldNames(fm) ==> x in UriFieldNamesForTerms(fm)
  {
    FieldsOfTypeMonotone(fm, NarrowTypes, BroadTypes);
    SubsequenceReflexive([ExternalUriField]);
    SubsequenceAppend(FieldsOfType(fm, NarrowTypes), FieldsOfType(fm, BroadTypes), [ExternalUriField], [ExternalUriField]);
    SubsequenceMembers(TermLookupFieldNames(fm), UriFieldNamesForTerms(fm));
  }

  // ---------------------------------------------------------------------
  // Terms and their URIs

  /** A link field item; only its `uri` property is read. */
  datatype LinkItem = LinkItem(uri: string)

  /** A taxonomy term: the fields it has, each with its list of items. */
  type Term = map<string, seq<LinkItem>>

  /** The term has field `f` and the field is not empty. */
  predicate Populated(term: Term, f: string)
  {
    f in term && |term[f]| > 0
  }

  /** `fields[k]` is the first field of the scan order that is populated. */
  ghost predicate IsFirstPopulated(fields: seq<string>, term: Term, k: int)
  {
    && 0 <= k < |fields|
    && Populated(term, fields[k])
    && forall j :: 0 <= j < k ==> !Populated(term, fields[j])
  }

  /** The loop of `getUriForTerm` over a given scan order. */
  function FirstPopulatedUri(fields: seq<string>, term: Term): (r: Option<string>)
    ensures r.None? <==> forall k :: 0 <= k < |fields| ==> !Populated(term, fields[k])
    ensures forall k :: IsFirstPopulated(fields, term, k) ==> r == Some(term[fields[k]][0].uri)
    ensures r.Some? ==> exists k :: IsFirstPopulated(fields, term, k) && r.value == term[fields[k]][0].uri
  {
    if |fields| == 0 then None
    else if Populated(term, fields[0]) then
      assert IsFirstPopulated(fields, term, 0);
      Some(term[fields[0]][0].uri)
    else
      var r := FirstPopulatedUri(fields[1..], term);
      assert forall k :: 1 <= k < |fields| ==> fields[k] == fields[1..][k - 1];
      assert forall k :: IsFirstPopulated(fields, term, k) ==> k > 0 && IsFirstPopulated(fields[1..], term, k - 1);
      assert forall k :: IsFirstPopulated(fields[1..], term, k) ==> IsFirstPopulated(fields, term, k + 1);
      r
  }

  /** `getUriForTerm`: the `uri` of the first item of the earliest field of
      the broad list that the term has and that is not empty; NULL when
      there is none. */
  function UriForTerm(fm: FieldMap, term: Term): (r: Option<string>)
    ensures r.None? <==> forall f :: f in UriFieldNamesForTerms(fm) ==> !Populated(term, f)
    ensures forall k :: IsFirstPopulated(UriFieldNamesForTerms(fm), term, k) ==>
      r == Some(term[UriFieldNamesForTerms(fm)[k]][0].uri)
  {
    FirstPopulatedUri(UriFieldNamesForTerms(fm), term)
  }

  /** Only the fields up to and including the first populated one decide
      the result: whatever the term holds in later fields is ignored, even
      when the returned `uri` is empty. */
  lemma UriForTermIgnoresLaterFields(fm: FieldMap, term: Term, other: Term, k: nat)
    requires IsFirstPopulated(UriFieldNamesForTerms(fm), term, k)
    requires forall j :: 0 <= j <= k ==>
      var f := UriFieldNamesForTerms(fm)[j];
      (f in term <==> f in other) && (f in term ==> other[f] == term[f])
    ensures UriForTerm(fm, other) == UriForTerm(fm, term)
  {
  }

  /** A term with no populated URI-typed field falls back on its external
      URI field. */
  lemma ExternalUriFallback(fm: FieldMap, term: Term)
    requires forall i :: 0 <= i < |fm| && fm[i].fieldType in BroadTypes ==> !Populated(term, fm[i].name)
    requires Populated(term, ExternalUriField)
    ensures UriForTerm(fm, term) == Some(term[ExternalUriField][0].uri)
  {
    var fields := UriFieldNamesForTerms(fm);
    var k := |fields| - 1;
    forall j | 0 <= j < k
      ensures !Populated(term, fields[j])
    {
      assert fields[j] in fields[..k];
    }
    assert IsFirstPopulated(fields, term, k);
  }

  // ---------------------------------------------------------------------
  // Looking a term up by URI

  /** A term as held by storage, with its id. */
  datatype StoredTerm = StoredTerm(tid: int, term: Term)

  /** The entity query's condition: some item of one of `fields` has this
      `uri`. */
  predicate HasUri(fields: seq<string>, term: Term, uri: string)
  {
    exists f :: f in fields && f in term && exists item :: item in term[f] && item.uri == uri
  }

  /** The ids the entity query returns, in the order storage returns them. */
  function QueryTermIds(fields: seq<string>, store: seq<StoredTerm>, uri: string): (r: seq<StoredTerm>)
    ensures forall s :: s in r <==> s in store && HasUri(fields, s.term, uri)
    ensures |r| > 0 ==> HasUri(fields, r[0].term, uri)
    ensures |r| > 0 ==>
      exists i :: 0 <= i < |store| && store[i] == r[0] && (forall j :: 0 <= j < i ==> !HasUri(fields, store[j].term, uri))
  {
    if |store| == 0 then []
    else
      var rest := QueryTermIds(fields, store[1..], uri);
      if HasUri(fields, store[0].term, uri) then
        [store[0]] + rest
      else
        assert |rest| > 0 ==> exists i :: (0 <= i < |store| && store[i] == rest[0] &&
          forall j :: 0 <= j < i ==> !HasUri(fields, store[j].term, uri)) by {
          if |rest| > 0 {
            var i :| 0 <= i < |store[1..]| && store[1..][i] == rest[0] &&
              forall j :: 0 <= j < i ==> !HasUri(fields, store[1..][j].term, uri);
            assert forall j :: 1 <= j < i + 1 ==> store[j] == store[1..][j - 1];
          }
        }
        rest
  }

  /** `getTermForUri`: the first term, in storage order, that holds `uri`
      in an `authority_link` field or in `field_external_uri`; NULL when
      the query finds none. */
  function TermForUri(fm: FieldMap, store: seq<StoredTerm>, uri: string): (r: Option<Term>)
    ensures r.None? <==> forall i :: 0 <= i < |store| ==> !HasUri(TermLookupFieldNames(fm), store[i].term, uri)
    ensures r.Some? ==> HasUri(TermLookupFieldNames(fm), r.value, uri)
    ensures r.Some? ==> exists i :: (0 <= i < |store| && store[i].term == r.value &&
      forall j :: 0 <= j < i ==> !HasUri(TermLookupFieldNames(fm), store[j].term, uri))
  {
    var results := QueryTermIds(TermLookupFieldNames(fm), store, uri);
    if |results| == 0 then
      assert forall i :: 0 <= i < |store| ==> store[i] !in results;
      None
    else
      assert results[0] in results;
      Some(results[0].term)
  }

  /** A term's external URI always finds some term. */
  lemma ExternalUriIsSearchable(fm: FieldMap, store: seq<StoredTerm>, i: nat)
    requires i < |store|
    requires Populated(store[i].term, ExternalUriField)
    ensures TermForUri(fm, store, store[i].term[ExternalUriField][0].uri).Some?
  {
  }

  /** The two field lists disagree: a URI held only in a
      `field_external_authority_link` field is the term's URI, yet looking
      that URI up finds no term. */
  lemma ExternalAuthorityLinkNotSearched()
    ensures var fm := [FieldInfo("field_authority", ExternalAuthorityLinkType)];
      var term := map["field_authority" := [LinkItem("http://id.loc.gov/x")]];
      && UriForTerm(fm, term) == Some("http://id.loc.gov/x")
      && TermForUri(fm, [StoredTerm(1, term)], "http://id.loc.gov/x") == None
  {
  }

  // ---------------------------------------------------------------------
  // Parent node of a media item

  /** An entity-reference item; `target` is NULL when the reference
      dangles. */
  datatype EntityRef<N> = EntityRef(target: Option<N>)

  /** A media item: the fields it has, each with its reference items. */
  type Media<N> = map<string, seq<EntityRef<N>>>

  /** `getParentNode`: the node the first `field_media_of` item refers to. */
  function ParentNode<N>(media: Media<N>): (r: Option<N>)
    ensures r.None? <==>
      || MediaOfField !in media
      || |media[MediaOfField]| == 0
      || media[MediaOfField][0].target.None?
    ensures r.Some? ==> r == media[MediaOfField][0].target
  {
    if MediaOfField !in media then None
    else
      var field := media[MediaOfField];
      if |field| == 0 then None
      else
        var parent := field[0].target;
        if parent.Some? then Some(parent.value) else None
  }

  /** The parent node depends on `field_media_of` alone. */
  lemma ParentNodeReadsOnlyMediaOf<N>(media: Media<N>, other: Media<N>)
    requires MediaOfField in media <==> MediaOfField in other
    requires MediaOfField in media ==> other[MediaOfField] == media[MediaOfField]
    ensures ParentNode(other) == ParentNode(media)
  {
  }
}
