# termwithuri_condition — a Dafny model

The Drupal module `termwithuri_condition` offers, in a taxonomy-term
reference widget, only the terms that carry an external URI: a URI held in
an authority-link field or in the well-known field `field_external_uri`. It
also looks a term up by URI and finds the node a media item belongs to.

This project models that logic as pure functions over plain data:

- `Php` — PHP's NULL (`Option`), a thrown error (`Result`) and `empty()` on a
  `string|null`.
- `Sequences` — order-preserving selection (`IsSubsequence`) and
  distinctness, the vocabulary for "PHP arrays keep their order".
- `Utils` (src/Utils.php) — the field map of `taxonomy_term` as an ordered
  sequence of `(name, type)` pairs; the broad list of URI fields
  (`getUriFieldNamesForTerms`); the narrow list built in `getTermForUri`;
  `getUriForTerm` as a first-populated-field scan over a term given as a map
  from field name to its items; `getTermForUri` over a sequence of stored
  terms whose order stands for the order the storage returns query results
  in; `getParentNode` over a media item's reference items.
- `ExternalUriSelection` (src/Plugin/EntityReferenceSelection/ExternalUriSelection.php)
  — `getReferenceableEntities`: the parent selection's two-level options
  (vocabulary id → term id → label) and term loading are inputs; terms
  whose URI is PHP-`empty` are removed, then vocabularies left empty.

Field types are compared with PHP's `==` and `in_array`; for the
non-numeric type names involved this is exact string equality, and the
model uses that.

Two consequences of the code that are easy to miss: `getUriForTerm`
declares its parameter as `TermInterface`, so a NULL term is not tolerated (a term id that does not load makes
`getReferenceableEntities` throw, modelled as `Failure(TermNotLoaded)`);
and the scan stops at the first populated field even when the `uri` found
there is empty, so a later field's URI never rescues a term.

## Model

| member | source | states |
|---|---|---|
| `Utils.FieldsOfType` | src/Utils.php:75-80 | a field name is selected exactly when the field map declares it with one of the given types; never more names than fields |
| `Utils.UriFieldNamesForTerms` | src/Utils.php:71-84 | the broad list ends with `field_external_uri`, and before that holds exactly the names typed `authority_link` or `field_external_authority_link` |
| `Utils.TermLookupFieldNames` | src/Utils.php:36-44 | the narrow list ends with `field_external_uri`, and before that holds exactly the names typed `authority_link` |
| `Utils.UriFieldNamesInFieldMapOrder` | src/Utils.php:74-80 | the broad list's prefix is a selection of the field-map names in field-map order, without repeats when the field names are distinct |
| `Utils.NoUriTypedFields` | src/Utils.php:74-83 | with no field of a URI-bearing type, both lists are exactly `[field_external_uri]` |
| `Utils.ExternalUriListedTwice` | src/Utils.php:75-82 | no deduplication: `field_external_uri` occurs twice when the field map gives it a URI-bearing type, once otherwise |
| `Utils.TermLookupFieldsWithinUriFields` | src/Utils.php:36-44 | the narrow list is an order-preserving selection of the broad list, so every narrow entry is a broad entry |
| `Utils.FirstPopulatedUri` | src/Utils.php:101-110 | NULL exactly when no listed field is present and non-empty; otherwise the `uri` of the first item of the earliest such field |
| `Utils.UriForTerm` | src/Utils.php:99-111 | NULL exactly when no broad-list field is present and non-empty on the term; otherwise the first item's `uri` of the earliest such field |
| `Utils.UriForTermIgnoresLaterFields` | src/Utils.php:101-107 | fields after the first populated one never change the result, even when the `uri` returned is empty |
| `Utils.ExternalUriFallback` | src/Utils.php:100-110 | a term with no populated URI-typed field yields the first item of its `field_external_uri` |
| `Utils.QueryTermIds` | src/Utils.php:46-55 | the query returns exactly the stored terms holding the URI in a searched field, the first being the earliest such in storage order |
| `Utils.TermForUri` | src/Utils.php:33-63 | NULL exactly when no stored term holds the URI in a narrow-list field; otherwise a holding term, the first in storage order |
| `Utils.ExternalUriIsSearchable` | src/Utils.php:43-55 | looking up the first `field_external_uri` item of a stored term always finds a term |
| `Utils.ExternalAuthorityLinkNotSearched` | src/Utils.php:38-42 | a URI held only in a `field_external_authority_link` field is the term's URI, yet the lookup by that URI finds nothing |
| `Utils.ParentNode` | src/Utils.php:126-141 | NULL exactly when the media lacks `field_media_of`, the field is empty, or its first target does not resolve; otherwise that target |
| `Utils.ParentNodeReadsOnlyMediaOf` | src/Utils.php:127-136 | the parent node depends on `field_media_of` alone |
| `ExternalUriSelection.PruneTerms` | src/Plugin/EntityReferenceSelection/ExternalUriSelection.php:46-52 | a vocabulary keeps exactly its entries whose URI is not PHP-`empty` |
| `ExternalUriSelection.PruneGroups` | src/Plugin/EntityReferenceSelection/ExternalUriSelection.php:45-56 | no vocabulary in the output is empty, every surviving term has a non-empty URI, and there are no more vocabularies than before |
| `ExternalUriSelection.PruneKeepsExactlyResolvable` | src/Plugin/EntityReferenceSelection/ExternalUriSelection.php:45-55 | a (vocabulary, term id, label) triple is in the output exactly when it is in the input and the term's URI is not empty |
| `ExternalUriSelection.PruneKeepsVocabularyOrder` | src/Plugin/EntityReferenceSelection/ExternalUriSelection.php:45-56 | surviving vocabularies keep their relative order |
| `ExternalUriSelection.PruneKeepsTermOrder` | src/Plugin/EntityReferenceSelection/ExternalUriSelection.php:45-52 | the flattened output is a selection of the flattened input: terms keep order, vocabulary and label |
| `ExternalUriSelection.PruneGroupOrigin` | src/Plugin/EntityReferenceSelection/ExternalUriSelection.php:45-55 | each output vocabulary is an input vocabulary with its terms pruned |
| `ExternalUriSelection.PrunePreservesWellFormed` | src/Plugin/EntityReferenceSelection/ExternalUriSelection.php:45-56 | distinct vocabulary ids and distinct term ids per vocabulary stay distinct |
| `ExternalUriSelection.PruneDropsEmptyVocabulary` | src/Plugin/EntityReferenceSelection/ExternalUriSelection.php:53-55 | a vocabulary none of whose terms has a URI is removed |
| `ExternalUriSelection.PruneIdempotent` | src/Plugin/EntityReferenceSelection/ExternalUriSelection.php:45-58 | pruning the pruned options again changes nothing |
| `ExternalUriSelection.KeptIffFirstPopulatedUriNonEmpty` | src/Plugin/EntityReferenceSelection/ExternalUriSelection.php:48-51 | a term is kept exactly when the first item of its earliest populated URI field has a non-empty `uri` |
| `ExternalUriSelection.GetReferenceableEntities` | src/Plugin/EntityReferenceSelection/ExternalUriSelection.php:42-59 | throws exactly when an offered term does not load; otherwise no vocabulary is empty and a term stays exactly when it was offered and has a non-empty URI |
| `ExternalUriSelection.GetReferenceableEntitiesKeepsOrder` | src/Plugin/EntityReferenceSelection/ExternalUriSelection.php:45-58 | vocabulary and term order are kept, and a well-formed options array stays well formed |
| `ExternalUriSelection.GetReferenceableEntitiesIdempotent` | src/Plugin/EntityReferenceSelection/ExternalUriSelection.php:45-58 | with the same term data, filtering the result again returns it unchanged |

## Left out

- Service lookup (`\Drupal::service`, `\Drupal::entityTypeManager`), the plugin's `create` wiring and the `getStorage` exceptions: framework plumbing; the field map, the stored terms and term loading are parameters instead.
- The parent `TermSelection::getReferenceableEntities` call and its `match`, `match_operator` and `limit` arguments: foreign code; its result is the `parentOptions` input.
- Utils.TermForUri: the entity query is modelled as a filter over stored terms whose sequence order stands for the storage's unspecified result order, and loading the first id is modelled as returning that stored term; the database's collation (for example case-insensitive matching) is not modelled, matching is exact string equality, as is a query on a field the term type lacks.
- Utils.UriForTerm: a NULL term is not modelled, since the `TermInterface` parameter type forbids it.
- Utils.FirstPopulatedUri: a field counts as empty when it has no items, and `first()` is its first item; typed-data internals (items that are themselves empty, `MissingDataException`) are not modelled.
- Utils.ParentNode: the `entity` property and `getTarget()` are modelled as an optional target per reference item; `getValue()` is the target itself.
- ExternalUriSelection.GetReferenceableEntities: the thrown error carries no detail of which term id failed to load.
- The constants `MEDIA_USAGE_FIELD`, `MEMBER_OF_FIELD` and `MODEL_FIELD`: unused by the code.
