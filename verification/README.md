# TreeLDR core, modelled in Dafny

TreeLDR is a schema language for linked data. A TreeLDR document declares
*layouts*: tree-shaped views of RDF resources. The toolchain parses these
documents, builds the layouts, and distils tree values to and from RDF
datasets. It also imports and exports JSON Schema, JSON-LD contexts and
Lexicon documents.

This project models the sequential, self-contained logic at the heart of
that toolchain as immutable Dafny datatypes and pure functions, and proves
what each operation promises. There is one module per source file, or per
family of near-identical source files. All of them share `Wrappers`, which
supplies `Option`, `Result` and `Ordering`.

- **Regular expressions and automata** (`RegExps`, `Automata`, `Exploration`):
  - construction, simplification, singleton detection and parsing of the
    layout regular expressions;
  - ε-closure, determinisation, products and reachability of the automata
    built from them;
  - the generic least-fixpoint exploration that these use.
- **Lexers and validators** (`Lexing`, `LegacyLexing`, `Nsids`):
  - the keyword, delimiter and punctuation tables;
  - whitespace and comment skipping;
  - escapes;
  - the NSID state machine of Lexicon.
- **Parsers** (`Parsing`, `SyntaxParsing`, `CoreParsing`, `LegacyParsing`):
  recursive descent over a token stream, with its "expected …" diagnostics.
  This covers comma-separated lists, blocks, aliases, prefixes and documents
  for all three generations of the grammar.
- **Layout syntax builders** (`Scopes`, `BuildScopes`, `LayoutSyntax`,
  `LayoutJson`, `LegacyBuild`, `OldBuild`, `FieldLayout`):
  - variable scopes;
  - compact-IRI expansion;
  - default inputs and literal resources;
  - the JSON form of abstract-syntax layouts;
  - documentation splitting;
  - base-IRI checks.
- **Distillation** (`Dehydrate`, `Hydrate`):
  - the chained variable environment and pattern instantiation;
  - the error paths that occur when a value is written to RDF or read back
    from it;
  - the RDF list walk.
- **Values and registries** (`Values`, `Registry`):
  - exact rationals and their decimal representation;
  - the untyped and JSON forms of values;
  - layout registries.
- **Lattices** (`Types`, `CoreRestrictions`, `SyntaxIntersection`,
  `BuildIntersection`, `PrimitiveRestrictions`, `Singles`):
  - type refinement and containment;
  - cardinality restrictions;
  - layout intersection;
  - primitive restrictions;
  - single-valued properties.
- **Builders of the RDF model** (`BuildContext`, `BuildNodes`, `Resources`,
  `ClassHierarchy`, `Unify`, `Simplify`, `UnionFinds`, `CoreBuildContext`,
  `CoreNodes`, `CorePrimitives`, `CoreVocab`, `ToRdf`):
  - node declaration;
  - the class hierarchy;
  - unification and colouring;
  - equivalence simplification;
  - the export of the model as RDF quads, with RDF collections encoded with
    `rdf:first`, `rdf:rest` and `rdf:nil` (section 5.2 of RDF Schema 1.1).
- **Importers and exporters**:
  - JSON Schema: `JsonSchemas`, `JsonSchemaSyntax`, `JsonSchemaValidation`,
    `JsonSchemaImport`, `JsonSchemaLegacyImport` and `JsonSchemaGen`;
  - JSON-LD contexts: `JsonLdContext` and `JsonLdUnresolved`;
  - Lexicon primitives: `LexiconPrimitives`.
- **Rust code generation** (`RustSyn`, `RustGenPath`, `RustGenLayout`,
  `RustSyntaxTy`, `RustDeriveParse`, `RustGenerator`):
  - relative module paths and the tree of generated modules;
  - which generated types implement `Default`, and the `new` constructors
    that follow from it;
  - the derive-set and type-parameter iterators of the emitted syntax;
  - the attribute parser of the derive macro;
  - the `intro` and `input` attributes the generator writes and the derive
    macro reads back.

IRIs, blank nodes and other resources are abstract type parameters, or the
small `Ids` and `Json` datatypes. Where the source reads an external crate or
performs I/O, the model takes the answer as a parameter.

Some definitions are modelled twice. Where the code as written disagrees
with what it evidently intends, the model holds both versions:

- one member follows the code, usually under a name suffixed `AsWritten`;
- the other member is the corrected definition.

Members that model the functions calling such code call the as-written
version, so they behave as the program does. The intended property is
proved about the corrected definition.

The findings section at the end lists each such pair.

## Model

| member | source | states |
|---|---|---|
| Automata.DeclareState | layouts/src/utils/automaton.rs:60-62 | declaring a state adds it to the table with no transitions if it was absent and leaves every existing row and the initial and final states as they were |
| Automata.Add | layouts/src/utils/automaton.rs:47-58 | after adding `source --via--> target` the edges are exactly the old edges plus that one, both endpoints are states, and an automaton whose targets were all declared stays so |
| Automata.Closure | layouts/src/utils/automaton.rs:84-102 | the epsilon closure contains the start set, stays within the automaton's states plus the start set, and is closed under epsilon steps |
| Automata.ClosureLeast | layouts/src/utils/automaton.rs:84-102 | the epsilon closure is the least epsilon-closed superset of the start set |
| Automata.ModuloEpsilonState | layouts/src/utils/automaton.rs:84-102 | the worklist loop computes the least epsilon-closed set containing the start states |
| Automata.NextClosed | layouts/src/utils/automaton.rs:104-151 | the set a character leads to from a state set (the union of the closures of its targets) is epsilon-closed |
| Automata.Determinize | layouts/src/utils/automaton.rs:154-187 | the subset automaton starts at the closure of the initial states, every transition target is a state, each state is epsilon-closed, and a state set is final exactly when it holds a final state |
| Automata.DeterminizedStatesClosed | layouts/src/utils/automaton.rs:154-187 | every state set reachable from an epsilon-closed initial set by determinized steps is epsilon-closed |
| Automata.ProductEdgeOfLabels | layouts/src/utils/automaton.rs:189-260 | two transitions whose label sets meet give a product edge labelled with their intersection |
| Automata.ProductTransitionsSound | layouts/src/utils/automaton.rs:212-250 | every transition the product computes for a pair of states pairs an edge of each component, either two character edges whose sets meet (labelled by the intersection) or two epsilon edges |
| Automata.ProductTransitionsComplete | layouts/src/utils/automaton.rs:212-250 | every such pair of component edges appears among the product's transitions of that pair |
| Automata.Product | layouts/src/utils/automaton.rs:189-260 | the product starts at the pairs of initial states, a pair is final exactly when both components are, and its edges are exactly the product edges of its components |
| Automata.ReachableStates | layouts/src/utils/automaton.rs:807-840 | the walk lists the start state first, never lists a state twice, and lists exactly the states reachable from the start |
| Automata.SingleTransitionOf | layouts/src/utils/automaton.rs:636-644 | there is a result exactly when the state has one outgoing transition, and the result is that transition |
| Automata.DetProductTransitions | layouts/src/utils/automaton.rs:588-631 | every label of a product state comes from a pair of component transitions the label function combines, and every such combination yields a label |
| Automata.DetProduct | layouts/src/utils/automaton.rs:588-631 | the deterministic product starts at the pair of initial states, every target is a state, and a pair is final exactly when both components are |
| Automata.IsEmpty | layouts/src/utils/automaton.rs:694-696 | the table is empty exactly when no state has a transition |
| Automata.LenIsSumOfCounts | layouts/src/utils/automaton.rs:690-692 | the number of transitions is the sum over the states of their outgoing transition counts |
| Automata.LenZero | layouts/src/utils/automaton.rs:690-696 | the table has no transitions exactly when every row is empty, so `len` and `is_empty` agree |
| BuildContext.NewDefinition | build/src/resource.rs:54-64 | a new node carries its identifier and metadata and has no types, labels, comments, super classes or list cell |
| BuildContext.Declare | build/src/context.rs:41-53 | declaring adds the identifier; a known node only merges the new metadata into its own, an unknown one becomes a new node, and every other node is unchanged |
| BuildContext.Insert | build/src/context.rs:252-254 | the inserted node is stored under its identifier, every other node is unchanged, and the node it replaced (if any) is returned |
| BuildContext.InsertUndo | build/src/context.rs:252-254 | re-inserting the node an insertion returned gives back the original context |
| BuildContext.GetList | build/src/context.rs:228-235 | `rdf:nil` is the empty list; any other identifier is a cell exactly when it is a node of the context |
| BuildContext.SubclassWith | build/src/context.rs:163-179 | the visited set only grows during the search |
| BuildContext.SubclassWithSound | build/src/ty.rs:107-143 | when the depth-first search answers yes there is a chain of listed super classes from `b` to a class that directly satisfies `a` |
| BuildContext.SupersFromSound | build/src/ty.rs:128-143 | a yes from the loop over the listed super classes comes from one of them, through such a chain |
| BuildContext.IsSubclassOfSound | build/src/context.rs:182-185 | `b` is a subclass of `a` only through a chain of listed super classes ending at a direct subclass of `a`, a non-resource under `rdfs:Resource`, or a datatype under `rdfs:Literal` |
| BuildContext.DirectSubclasses | build/src/ty.rs:107-130 | every class but `rdfs:Resource` is its subclass, every datatype is a subclass of `rdfs:Literal`, and every listed super class is found |
| BuildContext.UnknownIsNoSubclass | build/src/context.rs:163-179 | an identifier that is no node of the context is a subclass of nothing |
| BuildContext.SubclassPartialCmpMeaning | build/src/context.rs:188-208 | the comparison is `Equal` exactly for equal classes, `Greater`/`Less` only for subclasses either way, and absent exactly when neither is a subclass-or-equal of the other |
| BuildContext.BuildCells | build/src/context.rs:534-560 | building the cells adds exactly the generated identifiers to the context |
| BuildContext.BuildCellsKeeps | build/src/context.rs:534-560 | with fresh identifiers every node already in the context is left as it was |
| BuildContext.ItemsStable | build/src/context.rs:534-560 | adding nodes does not change how an existing list reads |
| BuildContext.BuildCellsStep | build/src/context.rs:547-557 | one loop iteration pushes the last remaining item in front of the current head |
| BuildContext.BuildCellsItems | build/src/context.rs:534-560 | cells built in front of a list reading `tail` give a head reading the items followed by `tail` |
| BuildContext.CreateListItems | build/src/context.rs:534-560 | a created list reads back as its items in order, and no items give `rdf:nil` |
| BuildContext.MapIds | build/src/context.rs:374-386 | the renamed map's keys are exactly the renamed keys |
| BuildContext.MapIdsUnique | build/src/context.rs:374-386 | a key that no other key is renamed onto keeps its metadata under its new name |
| BuildContext.MapIdsCollision | build/src/context.rs:374-386 | two keys renamed onto one identifier have their metadata merged |
| BuildIntersection.One | build/src/layout/intersection.rs:16-21 | a new identifier intersection holds exactly the one layout |
| BuildIntersection.Insert | build/src/layout/intersection.rs:29-37 | inserting adds the layout; a layout already present only merges the new metadata, a new one keeps its metadata, and the other entries are unchanged |
| BuildIntersection.IntersectionMeaning | build/src/layout/intersection.rs:39-53 | the intersection of two identifier intersections holds the layouts of both, keeps one-sided metadata, merges shared entries as an insertion would, and has the same layouts whichever side comes first |
| BuildIntersection.SortedKeys | build/src/layout/intersection.rs:81-98 | the listing has as many identifiers as the set and lists exactly its members |
| BuildIntersection.SortedKeysSorted | build/src/layout/intersection.rs:81-98 | the identifiers are listed in strictly increasing order |
| BuildIntersection.SortedKeysInjective | build/src/layout/intersection.rs:81-98 | two sets are listed the same exactly when they are the same set |
| BuildIntersection.LexCmp | build/src/layout/intersection.rs:89-98 | the lexicographic comparison says equal exactly for equal sequences |
| BuildIntersection.IdCmpMeaning | build/src/layout/intersection.rs:81-98 | intersections compare equal exactly when they hold the same layouts, whatever their metadata |
| BuildIntersection.PrepareLayout | build/src/layout/intersection.rs:55-78 | a single layout stands for itself and nothing is created; otherwise a new layout is pushed on the stack and declared as the intersection of exactly the given layouts |
| BuildIntersection.ArrayMeetsAlias | build/src/layout/intersection.rs:239-271 | as written, an array meets an alias into an array but never meets another array, and the alias-first order gives never |
| BuildIntersection.IntersectWithMeaning | build/src/layout/intersection.rs:239-271 | with arrays paired with arrays, two descriptions meet into something other than never exactly when they have the same kind other than never or alias (and equal primitives); the meet keeps the kind and refers to the layouts of both |
| BuildIntersection.IntersectWithLaws | build/src/layout/intersection.rs:239-271 | the corrected meet is commutative up to metadata, and each description but an alias meets itself into itself |
| BuildIntersection.MatchesLaws | build/src/layout/intersection.rs:462-470 | field matching is symmetric, and a field matches itself |
| BuildIntersection.IntersectedWithMeaning | build/src/layout/intersection.rs:472-502 | two distinct fields intersect exactly when they share a property or both have none and share a name or both have none; the result has no identifier, the names and properties of both, a candidate per pair of layouts, and comes from matching fields |
| BuildIntersection.IntersectedWithCommutes | build/src/layout/intersection.rs:472-502 | intersecting two fields that are not the same existing field does not depend on their order |
| BuildIntersection.MatchingWithoutIntersection | build/src/layout/intersection.rs:462-502 | fields sharing a name but with different properties match, yet do not intersect |
| BuildNodes.Set | build/src/node.rs:28-62 | replacing one component leaves the other five as they were |
| BuildNodes.NewNodeIsBare | build/src/node.rs:137-151 | a new node has its identifier, no label and none of the six components |
| BuildNodes.NewWith | build/src/node.rs:153-247 | each `new_*` constructor gives a node with exactly the one component, caused by the given metadata |
| BuildNodes.NewType | build/src/node.rs:153-167 | `new_type` gives a node that is a type and nothing else |
| BuildNodes.TypesOf | build/src/node.rs:249-258 | the flag of each kind is set exactly when the node has that component |
| BuildNodes.Declare | build/src/node.rs:348-382 | declaring creates a missing component with the cause, leaves a present one (and its first cause) untouched, and changes no other component or the identity |
| BuildNodes.DeclareOnce | build/src/node.rs:348-382 | declaring twice is declaring once with the first cause, and the resulting kinds do not depend on the cause |
| BuildNodes.Require | build/src/node.rs:385-402 | requiring a kind succeeds exactly when the component is present and returns it; otherwise the error names the node, the expected kind and the kinds it has, which exclude the expected one |
| BuildNodes.RequireAfterDeclare | build/src/node.rs:348-402 | a declared component is always found (with the declaring cause when it was new), and declaring one kind changes no other requirement |
| BuildNodes.RequirePropertyOrLayoutField | build/src/node.rs:583-610 | succeeds exactly when the node is a property or a layout field, returning both components, and otherwise reports a node that is no property |
| BuildNodes.RequireLayoutFieldOrVariant | build/src/node.rs:612-639 | succeeds exactly when the node is a layout field or a layout variant, returning both components, and otherwise reports a node that is no layout field |
| BuildNodes.RequireEitherMeaning | build/src/node.rs:583-639 | each combined requirement succeeds exactly when one of the two single requirements does |
| Resources.Require | build/src/resource.rs:194-344 | a check succeeds with the node's identifier exactly when the node has the expected type, and otherwise reports the node, the expected type and the declared types |
| Resources.RequireType | build/src/resource.rs:194-200 | succeeds exactly when one of the declared types is the class type or a subclass of it |
| Resources.RequireLayout | build/src/resource.rs:274-280 | succeeds exactly when one of the declared types is the layout type or a subclass of it |
| Resources.RequireRestriction | build/src/resource.rs:226-232 | succeeds exactly when one of the declared types is the OWL restriction class or a subclass of it |
| Resources.RequireRestrictionId | build/src/resource.rs:234-240 | succeeds exactly when one of the declared types is the layout restriction type or a subclass of it |
| Resources.HasTypeMeaning | build/src/resource.rs:86-88 | a node has every type it declares, and a new node has none, so requiring a class of it fails |
| Resources.RequireRestrictionIdDiffers | build/src/resource.rs:226-240 | a node declared only an OWL restriction passes `require_restriction` but fails `require_restriction_id` |
| Resources.Build | build/src/resource.rs:346-371 | the class part is built exactly for classes, the property part exactly for properties, the component part exactly for components |
| Resources.BuildMeaning | build/src/resource.rs:346-371 | a new node builds no part, and a node declared a class, a property and a component builds all three |
| BuildScopes.Bind | build/src/syntax.rs:156-159 | binding keeps the base and prefixes, adds a variable exactly when the name was not bound, binds the name to the number of names bound before, and leaves every other name as it was |
| BuildScopes.Variable | build/src/syntax.rs:161-166 | a name resolves exactly when it is bound, to its index, and otherwise reports it undeclared |
| BuildScopes.WithoutVariables | build/src/syntax.rs:148-154 | the base and prefixes are kept and no name resolves any more |
| BuildScopes.BindFreshDense | build/src/syntax.rs:156-159 | binding a new name gives it the next index and keeps the indices dense and distinct |
| BuildScopes.BindAll | build/src/syntax.rs:128-146 | binding the header's names keeps the base and prefixes |
| BuildScopes.BindAllFresh | build/src/syntax.rs:128-146 | distinct new names bound in order get consecutive fresh indices |
| BuildScopes.BindAllKeeps | build/src/syntax.rs:128-146 | a bound name that is not re-bound keeps its index |
| BuildScopes.RebindCollides | build/src/syntax.rs:156-159 | binding `a`, `b`, `a`, `c` gives `a` and `c` the same index 2 |
| BuildScopes.RebindThenFreshCollide | build/src/syntax.rs:156-159 | re-binding a bound name and then binding a new one gives both the same index |
| BuildScopes.Resolve | build/src/syntax.rs:81-95 | resolution fails for a missing base exactly when the reference has no scheme and there is no base, and otherwise agrees with the layout crate's resolution |
| BuildScopes.DefineLayout | build/src/syntax.rs:219-246 | the layout is stored under its id in any case, other ids are kept, and the result is a redefinition error exactly when the id already held a layout |
| BuildScopes.DefineTwice | build/src/syntax.rs:219-246 | defining the same id twice fails the second time |
| ClassHierarchy.Above | build/src/ty.rs:578-584 | the classes above a class include its direct super classes and stay within the context |
| ClassHierarchy.AboveTransitive | build/src/ty.rs:578-584 | being above is transitive |
| ClassHierarchy.AboveShrinks | build/src/ty.rs:614-629 | in an acyclic class graph a class above another reaches strictly fewer classes, the measure under which the reduction terminates |
| ClassHierarchy.ReduceCovers | build/src/ty.rs:633-662 | in an acyclic graph, every class above a member is above a member the reduction keeps |
| ClassHierarchy.ReduceMeaning | build/src/ty.rs:633-662 | the reduction keeps a subset in which no kept class is above another member, keeps every member no member is above, and in an acyclic graph every dropped member is above a kept one |
| ClassHierarchy.SuperIds | build/src/ty.rs:145-172 | a class's super classes include those it lists, `rdfs:Resource` for every class but itself, and `rdfs:Literal` for datatypes |
| ClassHierarchy.NewHierarchyFailure | build/src/ty.rs:563-630 | building the hierarchy fails exactly when some class is above itself, and the class it reports is one |
| ClassHierarchy.NewHierarchySelfLoop | build/src/ty.rs:590-612 | the error is a cycle of length one exactly when some class lists itself, and it names the first such class in context order |
| ClassHierarchy.NewHierarchySuccess | build/src/ty.rs:563-668 | on success every class has an entry, no class is above itself, each class keeps a subset of its super classes none of which is above another, and every dropped super class is above a kept one |
| ClassHierarchy.ReducedSupers | build/src/ty.rs:633-662 | in an acyclic context the kept super classes of a class are those no other super class is below, and they cover the dropped ones |
| ClassHierarchy.SuccessIsAcyclic | build/src/ty.rs:563-668 | a successful build means the class graph is acyclic, and the hierarchy maps each class to its reduced super classes |
| ClassHierarchy.HierarchyShape | build/src/ty.rs:563-668 | the hierarchy has an entry for every class, and each entry is a subset of the class's super classes |
| ClassHierarchy.HierarchyAbove | build/src/ty.rs:563-668 | a class is above another in the hierarchy only if it is above it in the context |
| ClassHierarchy.RemoveIndirectClassesMeaning | build/src/ty.rs:674-690 | removing indirect classes keeps types none of which is above another listed type, and every removed type is above a kept one |
| CoreBuildContext.NewNode | core/src/build/node.rs:82-155 | each `new_*` constructor gives a node with exactly the one component, caused by the given cause |
| CoreBuildContext.DeclareOnNode | core/src/build/node.rs:262-303 | declaring on a node adds the component when missing with the cause, and leaves a present component and every other component unchanged |
| CoreBuildContext.Declare | core/src/build/context.rs:164-193 | declaring adds the component to the identifier's node, creating the node when there is none; existing components and every other node are kept, and nodes stay stored under their own identifiers |
| CoreBuildContext.DeclareType | core/src/build/context.rs:164-169 | after declaring, the identifier's node is a type, a new node being a type only, and every other node is unchanged |
| CoreBuildContext.DeclareList | core/src/build/context.rs:196-204 | `rdf:nil` is never declared; any other identifier becomes a list node, and other nodes are unchanged |
| CoreBuildContext.DeclareIdempotent | core/src/build/context.rs:164-193 | declaring a component twice is declaring it once, keeping the first cause |
| CoreBuildContext.RequireNode | core/src/build/context.rs:206-217 | succeeds with the node exactly when the identifier is known, and otherwise reports an unknown node with no expected component |
| CoreBuildContext.RequireOnNode | core/src/build/node.rs:305-413 | succeeds with the component's cause exactly when the node has it, and otherwise reports the components the node has |
| CoreBuildContext.Require | core/src/build/context.rs:219-269 | succeeds exactly when the node is known and has the component; an unknown node is reported with the expected component, a known node lacking it as an invalid node type |
| CoreBuildContext.RequirePropertyOrLayoutField | core/src/build/context.rs:271-282 | succeeds exactly when the node is known and is a property or a layout field, returning each component exactly when present; an unknown node is reported as an expected property |
| CoreBuildContext.RequireList | core/src/build/context.rs:284-298 | `rdf:nil` is the empty list without lookup; any other identifier succeeds as a cell exactly when it is a known list node, and an unknown one is reported as an expected list |
| CoreBuildContext.Insert | core/src/build/context.rs:153-155 | the node replaces any node with its identifier, the replaced node is returned, and other nodes are unchanged |
| CoreBuildContext.RequireAfterDeclare | core/src/build/context.rs:164-269 | a declared component is then found, with the declaring cause when it was new, and other components' requirements are unaffected |
| CoreBuildContext.RequireListAfterDeclareList | core/src/build/context.rs:196-298 | a declared list is then required successfully, as a cell unless it is `rdf:nil` |
| CoreNodes.IsSubclassOf | core/src/node.rs:213-223 | only a class, a property or a component can be a subclass, and only of the same family |
| CoreNodes.IsSubclassOfTop | core/src/node.rs:213-223 | each sub-kind is below its family's general kind, and a general kind is below nothing |
| CoreNodes.IsSubclassOfStrictOrder | core/src/node.rs:213-223 | when the sub-kind relations are strict orders, the subclass relation on node types is irreflexive and transitive |
| CoreNodes.PropertyId | core/src/node.rs:570-588 | an unrefined resource property is its vocabulary IRI, a refined one the sub-property's identifier, and a family property its family's identifier |
| CoreNodes.PropertyTerm | core/src/node.rs:590-605 | a resource property is a vocabulary term exactly when it is unrefined |
| CoreNodes.ResourcePropertyIds | core/src/node.rs:570-605 | the four unrefined resource properties are identified by the IRIs of their terms, and their identifiers are distinct |
| CoreNodes.ExpectType | core/src/node.rs:626-637 | the type property expects a type, and `tldr:self`, the label and the comment properties do not |
| CoreNodes.SizeHint | core/src/node.rs:719-726 | the lower bound equals the upper bound, and a single-value iterator announces one value exactly when it holds one |
| CoreNodes.Next | core/src/node.rs:728-734 | `next` yields nothing exactly when no value is announced, and each value taken lowers the announced count by one |
| CoreNodes.DrainValues | core/src/node.rs:700-734 | draining the iterator yields its values in order, as many as its size hint announced |
| CoreNodes.SingleOnce | core/src/node.rs:719-734 | a single value is yielded once, with size hint 1 before and 0 after |
| CoreParsing.ParseId | core/src/syntax/parsing.rs:202-211 | an identifier is read exactly when the next token is one, consuming it; otherwise the error names the token found (or the end) and expects an identifier |
| CoreParsing.ParseImportIri | core/src/syntax/parsing.rs:248-257 | an import's identifier is accepted exactly when it is an absolute IRI; any other identifier is an invalid import id, and a non-identifier is an unexpected token |
| CoreParsing.ParsePrefix | core/src/syntax/parsing.rs:421-430 | a prefix is read exactly when the next token is a name; another identifier is an invalid prefix, and a non-identifier an unexpected token |
| CoreParsing.ParseAlias | core/src/syntax/parsing.rs:408-417 | an alias is read exactly when the next token is a name; another identifier is an invalid alias |
| CoreParsing.ParseExpr | core/src/syntax/parsing.rs:469-490 | reading an expression consumes at least one token |
| CoreParsing.ExprRoundTrip | core/src/syntax/parsing.rs:469-550 | a printed expression reads back as itself, whatever follows it |
| CoreParsing.ParseAnnotations | core/src/syntax/parsing.rs:437-443 | the annotation loop stops at the first token that is not an annotation keyword |
| CoreParsing.AnnotationsSplit | core/src/syntax/parsing.rs:437-443 | the annotations read are exactly a prefix of the stream, and the rest follows them |
| CoreParsing.AnnotationsRoundTrip | core/src/syntax/parsing.rs:437-443 | printed annotations followed by a non-annotation read back as themselves |
| CoreParsing.AnnotatedRoundTrip | core/src/syntax/parsing.rs:434-465 | annotations before and after an expression are gathered into one list, in order, so the side each was on is not recorded |
| CoreParsing.AnnotatedTrailing | core/src/syntax/parsing.rs:434-465 | an expression followed by its annotations reads back as that annotated expression |
| CoreParsing.ParseBlock | core/src/syntax/parsing.rs:132-148 | a block is read only from a brace block token, leaving the tokens after it; anything else is an unexpected token expecting a block |
| CoreParsing.BlockRoundTrip | core/src/syntax/parsing.rs:96-148 | a brace block holding a comma-separated printing of items reads back as those items |
| CoreParsing.ParseDocumentation | core/src/syntax/parsing.rs:215-232 | documentation stops at the first token that is not a doc comment |
| CoreParsing.DocumentationSplit | core/src/syntax/parsing.rs:215-232 | the doc comments read are exactly a prefix of the stream |
| CoreParsing.DocumentationRoundTrip | core/src/syntax/parsing.rs:215-232 | printed doc comments followed by another token read back as themselves |
| CoreParsing.ParseProperty | core/src/syntax/parsing.rs:321-339 | reading a property consumes at least one token |
| CoreParsing.ParsePropertyType | core/src/syntax/parsing.rs:328-334 | the optional `: type` part never grows the stream |
| CoreParsing.UntypedPropertyRoundTrip | core/src/syntax/parsing.rs:321-339 | an untyped property followed by anything but a colon reads back as itself |
| CoreParsing.TypedPropertyRoundTrip | core/src/syntax/parsing.rs:321-339 | a typed property followed by a non-annotation reads back as itself |
| CoreParsing.PropertyRoundTrip | core/src/syntax/parsing.rs:321-339 | a printed property reads back as itself when followed by neither a colon nor an annotation |
| CoreParsing.ParseField | core/src/syntax/parsing.rs:343-404 | reading a field consumes at least one token |
| CoreParsing.FieldNeedsLayout | core/src/syntax/parsing.rs:343-404 | a field name followed by neither `as` nor `:` is an error naming the token found and expecting a colon |
| CoreParsing.ItemAfterDoc | core/src/syntax/parsing.rs:236-238 | an item's doc comments are read first and the item body follows them |
| CoreParsing.ImportRoundTrip | core/src/syntax/parsing.rs:247-268 | a printed import of an absolute IRI reads back as itself |
| CoreParsing.TypeRoundTrip | core/src/syntax/parsing.rs:269-284 | a printed type definition reads back as itself, given a property parser that reads back its own printing |
| CoreParsing.LayoutRestRoundTrip | core/src/syntax/parsing.rs:285-302 | the printed rest of a layout definition (`id for type { fields }`) reads back as that layout |
| CoreParsing.LayoutRoundTrip | core/src/syntax/parsing.rs:285-302 | a printed layout definition reads back as itself, given a field parser that reads back its own printing |
| CoreParsing.ItemRoundTrip | core/src/syntax/parsing.rs:236-317 | every well-formed printed item reads back as itself, leaving what follows |
| CoreParsing.ImportInvalidIri | core/src/syntax/parsing.rs:248-257 | an import whose identifier is not an absolute IRI is refused with that identifier |
| CoreParsing.Filter | core/src/syntax/parsing.rs:167-198 | the filtered items all satisfy the test and come from the list |
| CoreParsing.DocumentRoundTrip | core/src/syntax/parsing.rs:167-198 | a printed document reads back with its imports, types and layouts each listed in the order they were written |
| CorePrimitives.PrimitiveId | core/src/layout/primitive.rs:185-188 | a primitive's identifier is its own `tldr:` primitive IRI |
| CorePrimitives.FromId | core/src/layout/primitive.rs:145-151 | an identifier names a primitive exactly when it is a `tldr:` primitive IRI, and `from_id` inverts `id` on every identifier |
| CorePrimitives.FromIdRoundTrip | core/src/layout/primitive.rs:145-188 | every primitive is found again from its identifier |
| CorePrimitives.NaturalTypeTerm | core/src/layout/primitive.rs:194-225 | raw bytes and content identifiers have no natural type, every other primitive has an XSD datatype, and `xsd:anyURI` belongs exactly to the three IRI-like primitives |
| CorePrimitives.NaturalTypeTermInjective | core/src/layout/primitive.rs:194-225 | apart from the IRI-like primitives, no two primitives share a natural type |
| CorePrimitives.Name | core/src/layout/primitive.rs:153-183 | every primitive has a non-empty display name |
| CorePrimitives.DerivedOfIsPlain | core/src/layout/primitive.rs:338-345 | a primitive seen as a derived layout keeps the primitive and has no restrictions and no default value |
| CorePrimitives.DerivedOfUnrestricted | core/src/layout/primitive.rs:309-345 | a primitive seen as a derived layout is unrestricted |
| CoreRestrictions.Next | core/src/ty/restriction.rs:530-546 | each step of the iterator shortens the remaining restrictions, and the iterator stops exactly when no bound is left |
| CoreRestrictions.IterateMeaning | core/src/ty/restriction.rs:374-393 | the iterator yields as many restrictions as `len` says, a single `Exactly` for equal bounds, and together they admit exactly the counts the bounds admit |
| CoreRestrictions.RestrictAsWritten | core/src/ty/restriction.rs:395-440 | as written, a new lower (upper) bound replaces the old one, so the result admits what the restriction and the other bound admit; it is a contradiction exactly when it passes the opposite bound |
| CoreRestrictions.RestrictForgetsMin | core/src/ty/restriction.rs:395-440 | as written, "at least 3" followed by "at least 1" gives "at least 1", which admits two values |
| CoreRestrictions.Restrict | core/src/ty/restriction.rs:395-440 | corrected: the bounds narrow to exactly the counts both the old bounds and the restriction admit, a contradiction only when no count satisfies both, and `Exactly n` gives bounds n..n |
| CoreRestrictions.CardinalityUnion | core/src/ty/restriction.rs:447-476 | every count either side admits is admitted; a bound survives exactly when both sides have one, and it is one of the two |
| CoreRestrictions.CardinalityIntersection | core/src/ty/restriction.rs:478-519 | the result admits exactly the counts both sides admit, and a contradiction means no count satisfies both |
| CoreRestrictions.IntersectionContradiction | core/src/ty/restriction.rs:478-519 | the intersection is a contradiction exactly when no count satisfies both sides |
| CoreRestrictions.RangeRestrict | core/src/ty/restriction.rs:298-310 | adding a range restriction narrows the values exactly by that restriction, and adds one to the count unless it was already present |
| CoreRestrictions.RangeUnion | core/src/ty/restriction.rs:317-331 | the union keeps only restrictions common to both sides, so it holds whenever either side holds |
| CoreRestrictions.RangeIntersection | core/src/ty/restriction.rs:333-347 | the intersection holds exactly when both sides hold |
| CoreRestrictions.UnrestrictedHoldsAll | core/src/ty/restriction.rs:176-178 | no restrictions hold of every value list, and there are none |
| CoreRestrictions.RestrictAll | core/src/ty/restriction.rs:204-218 | a range restriction always succeeds and narrows the values by it; a cardinality restriction leaves the ranges and replaces the bound of its kind, as written; only a cardinality restriction can contradict |
| CoreRestrictions.RestrictAllTightens | core/src/ty/restriction.rs:204-218 | a cardinality restriction at least as tight as the bound it replaces narrows the restrictions exactly as the corrected `Restrict` does |
| CoreRestrictions.Singleton | core/src/ty/restriction.rs:180-187 | the restrictions made of one restriction hold exactly when it does, and there is one |
| CoreRestrictions.RestrictionsUnion | core/src/ty/restriction.rs:225-233 | the union holds whenever either side holds |
| CoreRestrictions.RestrictionsIntersection | core/src/ty/restriction.rs:235-243 | the intersection holds exactly when both sides hold, and a contradiction means nothing satisfies both |
| Dehydrate.Get | layouts/src/distill/de/mod.rs:848-862 | a variable below the environment's length is the resource at that position, searching the root inputs first and then each child's introductions; past the end the error is how far past it lies |
| Dehydrate.Bind | layouts/src/distill/de/mod.rs:865-867 | binding appends the two resources as the next two variables |
| Dehydrate.Intro | layouts/src/distill/de/mod.rs:870-880 | introducing appends the generated resources as the next variables, in order |
| Dehydrate.InstantiatePattern | layouts/src/distill/de/mod.rs:884-895 | a resource pattern is itself and a bound variable its resource; an unbound variable is an undeclared-variable error |
| Dehydrate.InstantiatePatterns | layouts/src/distill/de/mod.rs:897-908 | succeeds exactly when every pattern does, giving their instances in order; otherwise the error is that of the first failing pattern |
| Dehydrate.InstantiateQuad | layouts/src/distill/de/mod.rs:910-923 | a quad succeeds exactly when its subject, predicate, object and graph (if any) all instantiate, with each component instantiated |
| Dehydrate.SubGraph | layouts/src/distill/de/mod.rs:825-829 | no graph in the format keeps the enclosing graph, an explicit default graph gives none, and a graph pattern is instantiated |
| Dehydrate.CheckLayout | layouts/src/distill/de/mod.rs:530-539 | the checks pass exactly when the layout exists and any declared input count matches; a missing layout is reported as not found, otherwise the expected and found input counts are reported |
| Dehydrate.SelectVariant | layouts/src/distill/de/mod.rs:641-675 | when every variant was tried, the sum succeeds exactly when one variant accepts (returning it), is ambiguous exactly when two or more do, and incompatible exactly when none does; a dataset failure of a variant is the sum's error |
| Dehydrate.RecordEntries | layouts/src/distill/de/mod.rs:682-698 | the entries pass exactly when every key is a field whose value dehydrates; otherwise the error is that of the first failing entry, an undeclared key being an incompatible layout |
| Dehydrate.RequiredFields | layouts/src/distill/de/mod.rs:700-708 | the check passes exactly when every required field is present, and otherwise reports the first missing one in field order |
| Dehydrate.DehydrateRecord | layouts/src/distill/de/mod.rs:677-712 | a record dehydrates exactly when all entries do and all required fields are present; an undeclared key always fails, and once the entries pass the result is that of the required-field check |
| Dehydrate.RecordMissingField | layouts/src/distill/de/mod.rs:700-708 | a record with good entries that lacks a required field reports the first such field |
| Dehydrate.DehydrateTuple | layouts/src/distill/de/mod.rs:767-797 | a fixed-size list succeeds exactly when it has as many values as item layouts and every item dehydrates; a count mismatch with good items is an incompatible layout, any other error is that of an item |
| Dehydrate.OrderedNodes | layouts/src/distill/de/mod.rs:737-764 | an ordered list of n items chains n nodes: the first head is the layout's head, the last rest the layout's tail, and each rest is the next node's head, a fresh resource |
| Dehydrate.NodeEnvironment | layouts/src/distill/de/mod.rs:748-749 | a node's environment is the list's environment followed by the node's head and rest and then its introduced resources, so the head and rest are the first two new variables |
| Dehydrate.NodeEnvironmentGet | layouts/src/distill/de/mod.rs:848-880 | a variable of a node's environment is the list's own below its length, then the head, the rest and the introduced resources, and nothing past them |
| Dehydrate.DehydrateConstant | layouts/src/distill/de/mod.rs:543-802 | the `always` layout accepts any value, writing nothing, and the `never` layout rejects any value as an incompatible layout |
| Exploration.Reach | layouts/src/utils/automaton.rs:807-840 | the reachable states contain the start states, stay in the universe and are closed under the successor function |
| Exploration.ReachLeast | layouts/src/utils/automaton.rs:807-840 | the reachable states lie inside every successor-closed superset of the start states, so they are the least one |
| Exploration.SeqOfSet | layouts/src/utils/automaton.rs:823-840 | a set's elements listed in some order, each once |
| Exploration.FrontierSkip | layouts/src/utils/automaton.rs:827-828 | popping an already visited state keeps the unexplored frontier covered |
| Exploration.FrontierVisit | layouts/src/utils/automaton.rs:828-836 | visiting a popped state and pushing its successors keeps the unexplored frontier covered |
| Exploration.DfsSkip | layouts/src/utils/automaton.rs:827-828 | popping an already visited state preserves the search invariant |
| Exploration.DfsVisit | layouts/src/utils/automaton.rs:828-836 | emitting a new state and pushing its successors preserves the search invariant |
| Exploration.DepthFirst | layouts/src/utils/automaton.rs:807-840 | the depth-first walk emits the last root first, never emits a state twice, and emits exactly the states reachable from the roots |
| FieldLayout.FieldName | syntax/src/build/layout.rs:416-435 | a field is named by its alias, else by its property IRI's fragment, else by the last path segment; an IRI with neither gives no name |
| FieldLayout.FieldContainer | syntax/src/build/layout.rs:441-560 | the container wraps the field's own layout |
| FieldLayout.FieldCardinality | syntax/src/build/layout.rs:441-560 | the container admits n values exactly when `required` forces n >= 1 and the absence of `multiple` forces n <= 1 |
| FieldLayout.OneOrManyNeedsSingle | syntax/src/build/layout.rs:441-560 | a one-or-many container arises exactly from `multiple` with `single`, and a non-empty restriction exactly from `multiple` with `required` |
| FieldLayout.AnnotationsAsSet | syntax/src/build/layout.rs:450-456 | only which annotations are present matters, not their order or repetition |
| Hydrate.IntoOptional | src/matching.rs:199-210 | no substitution gives nothing, exactly one gives it, and two or more are an ambiguity |
| Hydrate.IntoRequired | src/matching.rs:212-214 | succeeds exactly with one substitution, returning it; none is `Empty` and two or more an ambiguity |
| Hydrate.FromMatchingError | layouts/src/distill/hy/mod.rs:80-86 | an ambiguous match is a data ambiguity and an empty one missing data, both about the fragment being read |
| Hydrate.FromInputs | layouts/src/distill/hy/mod.rs:320 | a layout's substitution starts with its inputs, each bound, in order |
| Hydrate.IntroVars | layouts/src/distill/hy/mod.rs:321 | introducing n variables keeps the substitution and appends n unknowns, the first at the old length |
| Hydrate.Apply | layouts/src/distill/hy/mod.rs:552-557 | a resource pattern is itself and a bound variable its value |
| Hydrate.SelectInputs | layouts/src/distill/hy/mod.rs:552-557 | the sub-layout's inputs are the substituted input patterns, one per pattern and in order |
| Hydrate.SelectGraph | layouts/src/distill/hy/mod.rs:559-571 | no graph in the format keeps the current graph, an explicit default graph gives none, and a graph pattern is substituted |
| Hydrate.SelectInputsAgrees | layouts/src/distill/hy/mod.rs:552-557 | from a substitution agreeing with the dehydration environment, the inputs read back are exactly those dehydration instantiated |
| Hydrate.SelectGraphAgrees | layouts/src/distill/hy/mod.rs:559-571 | from such a substitution, the graph read back is the one dehydration wrote into |
| Hydrate.FromInputsAgrees | layouts/src/distill/hy/mod.rs:320 | hydration and dehydration both start from the same inputs |
| Hydrate.NodeSubstitution | layouts/src/distill/hy/mod.rs:452-453 | a list node's substitution is the list's own, then the node's head, then unknowns for the rest and the introductions, and the rest comes right after the head |
| Hydrate.NodeVariablesAgree | layouts/src/distill/hy/mod.rs:452-453 | hydration reads an ordered-list node's head and rest at the variables dehydration bound them to |
| Hydrate.CheckLayout | layouts/src/distill/hy/mod.rs:173-182 | the checks pass exactly when the layout exists and any declared input count matches, reporting a missing layout or the counts otherwise |
| Hydrate.CheckLayoutAgrees | layouts/src/distill/hy/mod.rs:173-182 | hydration and dehydration accept the same layouts and input counts |
| Hydrate.HydrateConstant | layouts/src/distill/hy/mod.rs:185-548 | `always` reads as a value and `never` is an incompatible layout |
| Hydrate.ConstantAgrees | layouts/src/distill/hy/mod.rs:185-548 | hydration and dehydration reject `never` and accept `always` alike |
| Hydrate.HydrateRecord | layouts/src/distill/hy/mod.rs:319-378 | a record reads exactly when every field reads and every required field is present; the record then holds exactly the fields found, with their values, and only declared fields |
| Hydrate.HydrateRecordFailure | layouts/src/distill/hy/mod.rs:333-375 | a failure is that of the first field, in name order, that fails to read or is required and absent |
| Hydrate.RequiredFieldMissing | layouts/src/distill/hy/mod.rs:366-373 | a required field with no match, after fields that all read, is missing data for its key |
| Hydrate.Insert | layouts/src/distill/hy/mod.rs:430 | inserting into a sorted list gives a sorted list with the item added |
| Hydrate.InsertStep | layouts/src/distill/hy/mod.rs:430 | keeping a smaller head in front of an insertion into the tail stays sorted and a permutation |
| Hydrate.SortItems | layouts/src/distill/hy/mod.rs:430 | the items of an unordered list come back sorted, a permutation of what matching produced |
| Hydrate.SortedSameHead | layouts/src/distill/hy/mod.rs:430 | two sorted orders of the same items start with the same item |
| Hydrate.SortedUnique | layouts/src/distill/hy/mod.rs:430 | the same items have only one sorted order |
| Hydrate.SortPermutationInvariant | layouts/src/distill/hy/mod.rs:382-432 | the hydrated unordered list does not depend on the order matching produced its items in |
| Hydrate.WalkAsWritten | layouts/src/distill/hy/mod.rs:451-491 | as written, a walk that ends from a head other than the tail starts at a known node and yields that node's item first |
| Hydrate.SelfLoopNeverEnds | layouts/src/distill/hy/mod.rs:451-491 | as written, a node whose rest is itself keeps the walk going whatever the fuel |
| Hydrate.Walk | layouts/src/distill/hy/mod.rs:451-491 | corrected: a walk that ends from a head other than the tail starts at a known, unvisited node and yields its item first |
| Hydrate.SelfLoopIsCyclic | layouts/src/distill/hy/mod.rs:451-491 | the corrected walk reports a self-looping node as a cyclic list |
| Hydrate.WalkAgrees | layouts/src/distill/hy/mod.rs:451-491 | wherever the corrected walk does not find a cycle, the walk as written ends with the same result: they differ only on cyclic lists |
| Hydrate.WalkEnds | layouts/src/distill/hy/mod.rs:451 | where the corrected walk stops at once, the walk as written stops the same way |
| Hydrate.WalkStep | layouts/src/distill/hy/mod.rs:451-491 | one step of the corrected walk from an unvisited node prepends its item to the walk from its rest |
| Hydrate.WalkAsWrittenStep | layouts/src/distill/hy/mod.rs:451-491 | agreement of the two walks from a node's rest extends to the node itself |
| Hydrate.ChainRoundTrip | layouts/src/distill/hy/mod.rs:451-491 | walking the chain of nodes dehydration wrote gives back the items in order, when the heads are distinct and differ from the tail |
| Ids.IdLeTotal | build/src/layout/intersection.rs:55-78 | the order identifier maps use is total and antisymmetric |
| Ids.Least | build/src/layout/intersection.rs:55-64 | the first identifier of a non-empty set is in the set and no other comes before it |
| Json.AsU64 | modules/json-schema/src/schema/from_syntax.rs:43-47 | a number reads as an unsigned 64-bit integer exactly when it is an integer below 2^64, and then as that integer |
| Json.FindKey | modules/json-schema/src/schema/from_syntax.rs:128-215 | the entry an object lookup finds is the first one with the key, and none means no entry has it |
| Json.Get | modules/json-schema/src/schema/from_syntax.rs:128-215 | a lookup finds a value exactly when some entry has the key, and the value is that of an entry with the key |
| Json.Insert | modules/json-schema/src/lib.rs:139-150 | after inserting, the key holds the new value, every other key keeps its value, the object grows only when the key was new, and existing entries keep their positions |
| JsonLdContext.PropagateContext | modules/json-ld-context/src/lib.rs:111-117 | a nested context is built under this builder when it propagates, and under its parent otherwise |
| JsonLdContext.Chain | modules/json-ld-context/src/lib.rs:123-131 | the chain of term maps starts with the builder's own |
| JsonLdContext.ContainsMeaning | modules/json-ld-context/src/lib.rs:123-131 | a builder contains a term definition exactly when the nearest map of its chain that defines the term defines it that way |
| JsonLdContext.Insert | modules/json-ld-context/src/lib.rs:133-154 | as written: a definition the parent chain holds is skipped, a new term is bound, and it fails with an ambiguity exactly on a term the builder binds otherwise that the parent does not already hold |
| JsonLdContext.InsertHidesConflict | modules/json-ld-context/src/lib.rs:133-154 | as written, an insertion can succeed though the builder itself binds the term to another definition |
| JsonLdContext.InsertChecked | modules/json-ld-context/src/lib.rs:133-154 | corrected: after a successful insertion the builder denotes the term by the inserted definition, and it fails exactly when the builder binds the term otherwise |
| JsonLdContext.InsertCheckedAgrees | modules/json-ld-context/src/lib.rs:133-154 | the corrected and the written insertion agree whenever the builder has no binding of its own for the term |
| JsonLdContext.InsertField | modules/json-ld-context/src/lib.rs:156-169 | a field without a property defines no term; one with a property fails only on a conflicting binding and afterwards denotes its property, unless the parent chain hides it |
| JsonLdContext.Build | modules/json-ld-context/src/lib.rs:343-358 | the built context binds every term of the builder except `@type` and `@id`, each to its definition |
| JsonLdContext.GeneratePrimitiveType | modules/json-ld-context/src/lib.rs:391-412 | the `@type` of a primitive is an XSD datatype IRI, `xsd:anyURI` for IRIs, URIs and URLs |
| JsonLdContext.GeneratePrimitiveTypeInjective | modules/json-ld-context/src/lib.rs:391-412 | apart from the IRI-like primitives, distinct primitives get distinct datatypes |
| JsonLdUnresolved.IntersectWith | modules/json-ld-context/src/unresolved.rs:37-48 | the common prefixes are exactly those both maps bind to the same IRI |
| JsonLdUnresolved.IntersectWithLaws | modules/json-ld-context/src/unresolved.rs:37-48 | intersecting prefix maps is commutative and idempotent and only removes prefixes |
| JsonLdUnresolved.FirstColon | modules/json-ld-context/src/unresolved.rs:50-73 | the split point of a compact IRI is its first colon, and there is none when the term has no colon |
| JsonLdUnresolved.Resolve | modules/json-ld-context/src/unresolved.rs:50-73 | an unresolvable term is returned as the error; a blank node identifier starts `_:`; an IRI is the known prefix's IRI followed by the suffix |
| JsonLdUnresolved.ResolveExpands | modules/json-ld-context/src/unresolved.rs:50-73 | `p:s` expands to the IRI bound to `p` followed by `s`, and an unknown `p` is an error |
| JsonLdUnresolved.ResolveBlank | modules/json-ld-context/src/unresolved.rs:50-73 | `_:label` is that blank node identifier when it is one, and an error otherwise |
| JsonLdUnresolved.InsertDefinition | modules/json-ld-context/src/unresolved.rs:408-413 | a `null` definition marks the term removed and any other is appended to the term's definitions |
| JsonLdUnresolved.InsertAllMeaning | modules/json-ld-context/src/unresolved.rs:408-413 | after several insertions a term is removed exactly when one of them was `null`, and its definitions are the others, in order |
| JsonLdUnresolved.InsertBinding | modules/json-ld-context/src/unresolved.rs:355-357 | inserting a binding adds the definition to that term's definitions, starting them when the term is new, and leaves every other term alone |
| JsonLdUnresolved.DefaultLocalContextIsEmpty | modules/json-ld-context/src/unresolved.rs:336-345 | a default local context has no base, vocabulary, language or direction, propagates and is not type-scoped |
| JsonLdUnresolved.ResolveEntry | modules/json-ld-context/src/unresolved.rs:204-224 | resolving an optional nullable entry keeps absence and `null`, and resolves a present value |
| JsonLdUnresolved.ResolveLocalContext | modules/json-ld-context/src/unresolved.rs:318-332 | resolving a local context resolves only its base and vocabulary, keeping whether they are present, and keeps everything else |
| JsonLdUnresolved.AddChild | modules/json-ld-context/src/unresolved.rs:775-812 | recording a child says whether it is new, adds exactly that child under that parent and term, and changes nothing else |
| JsonLdUnresolved.AddParent | modules/json-ld-context/src/unresolved.rs:775-812 | recording a parent says whether it is new, adds exactly that parent above that child and term, and changes nothing else |
| JsonLdUnresolved.AddDirect | modules/json-ld-context/src/unresolved.rs:775-812 | recording a direct pair makes the child a direct child of the parent without changing the term relations |
| JsonLdUnresolved.InsertRelation | modules/json-ld-context/src/unresolved.rs:775-779 | a context is never recorded as related to itself |
| JsonLdUnresolved.AddBothChildren | modules/json-ld-context/src/unresolved.rs:775-812 | recording both sides keeps every recorded child listing its parent |
| JsonLdUnresolved.AddBothParents | modules/json-ld-context/src/unresolved.rs:775-812 | recording both sides keeps every recorded parent listing its child |
| JsonLdUnresolved.AddBothDirect | modules/json-ld-context/src/unresolved.rs:775-812 | recording both sides keeps direct parents and children mirror images |
| JsonLdUnresolved.AddChildPresent | modules/json-ld-context/src/unresolved.rs:775-812 | recording a pair already there changes nothing |
| JsonLdUnresolved.InsertRelationNew | modules/json-ld-context/src/unresolved.rs:775-812 | inserting a new pair through a term records it on both sides |
| JsonLdUnresolved.InsertRelationSymmetric | modules/json-ld-context/src/unresolved.rs:775-812 | insertion keeps the parent and child relations symmetric |
| JsonLdUnresolved.InsertRelationMeaning | modules/json-ld-context/src/unresolved.rs:775-827 | insertion answers whether the pair is new, and afterwards exactly the old pairs and the new one are contained |
| JsonLdUnresolved.ContainsReflexive | modules/json-ld-context/src/unresolved.rs:814-827 | a context is contained in itself, and inserting with no term changes no containment |
| JsonSchemas.IntoVec | modules/json-schema/src/schema.rs:16-21 | one item becomes a list of one, and many stay as they are |
| JsonSchemas.AsSlice | modules/json-schema/src/schema.rs:23-28 | borrowing sees the one item or the many items |
| JsonSchemas.AsSliceIntoVec | modules/json-schema/src/schema.rs:15-28 | borrowing and converting see the same items |
| JsonSchemas.IsEmptyMeaning | modules/json-schema/src/schema.rs:146-154 | the meta data is empty exactly when it has no keyword, and a description exactly when it is a definition without string, array or object keywords |
| JsonSchemas.IsPrimitiveSchemaMeaning | modules/json-schema/src/schema.rs:127-129 | a regular schema is primitive exactly when its description is empty and its validation only primitive; a combination, negation or condition never is, and the meta data and id do not matter |
| JsonSchemaGen.LineEnd | modules/json-schema/src/lib.rs:106-118 | the end of a line is at its first line feed, and a text without one is a single line |
| JsonSchemaGen.Lines | modules/json-schema/src/lib.rs:106-118 | no line holds a line feed, and only the empty text has no lines |
| JsonSchemaGen.RemoveNewlines | modules/json-schema/src/lib.rs:106-118 | the one-line description holds no line feed, and a text without one is kept as it is |
| JsonSchemaGen.LinesRoundTrip | modules/json-schema/src/lib.rs:106-118 | lines joined with line feeds split back into the same lines, so line feeds become single spaces |
| JsonSchemaGen.LinesStep | modules/json-schema/src/lib.rs:106-118 | splitting off the first line and the rest by induction splits the whole text back |
| JsonSchemaGen.FirstLine | modules/json-schema/src/lib.rs:106-118 | the first of several joined lines ends at the first line feed and the rest of the text is the other lines joined |
| JsonSchemaGen.InsertOpt | modules/json-schema/src/lib.rs:851-864 | an optional entry sets its key when present, changes nothing when absent, and never touches another key |
| JsonSchemaGen.SchemaEntries | modules/json-schema/src/lib.rs:719-834 | a primitive's schema holds its type, the bounds it has and the format it has |
| JsonSchemaGen.PrimitiveType | modules/json-schema/src/lib.rs:719-834 | the type entry of a primitive's schema is the JSON Schema type of the primitive |
| JsonSchemaGen.PrimitiveBounds | modules/json-schema/src/lib.rs:719-834 | the bound and format entries of a primitive's schema are the primitive's range and format |
| JsonSchemaGen.BooleanSchemaUnreadable | modules/json-schema/src/lib.rs:725 | as written, the boolean schema has type `bool`, which JSON Schema does not define, so the importer rejects it |
| JsonSchemaGen.BoundsAreRange | modules/json-schema/src/lib.rs:719-834 | the bounds written for an integer layout are its range: its sign's bound, and the two's complement range of a machine integer |
| JsonSchemaGen.FormatNamesRead | modules/json-schema/src/lib.rs:719-834 | a primitive has a format entry exactly when it stands for a format, and the importer reads that format back |
| JsonSchemaGen.PrimitiveTypeReadsBack | modules/json-schema/src/lib.rs:719-834 | corrected: every primitive's schema reads back as its type, its format and its range |
| JsonSchemaGen.EntriesReadBack | modules/json-schema/src/lib.rs:719-834 | type and format entries naming a primitive's type and format read back as them |
| JsonSchemaGen.PatternMembers | modules/json-schema/src/lib.rs:1120-1175 | a pattern matching one string is written as `const` with that string, any other as `pattern` with its text, and nothing else changes |
| JsonSchemaGen.GenerateDerivedType | modules/json-schema/src/lib.rs:840-1208 | a restricted primitive's schema is an object |
| JsonSchemaGen.DerivedBounds | modules/json-schema/src/lib.rs:840-1208 | a restricted integer keeps type `integer`, with the restriction's bounds where it has them and the layout's range elsewhere |
| JsonSchemaGen.IntegerBase | modules/json-schema/src/lib.rs:719-834 | an integer layout's schema has type `integer` and the layout's range |
| JsonSchemaGen.OverrideBounds | modules/json-schema/src/lib.rs:840-1208 | bounds written over a schema replace its own where given and keep its type |
| JsonSchemaGen.DerivedPattern | modules/json-schema/src/lib.rs:840-1208 | a restricted string keeps type `string` and writes exactly one of `const` and `pattern` for its pattern |
| JsonSchemaGen.PatternOver | modules/json-schema/src/lib.rs:1120-1175 | the pattern entry leaves the type alone and writes exactly one of `const` and `pattern` |
| JsonSchemaGen.DerivedLiteral | modules/json-schema/src/lib.rs:840-1208 | a string restricted to a literal is written as that literal |
| JsonSchemaGen.SchemaKeys | modules/json-schema/src/lib.rs:719-834 | a primitive's schema has no entry besides its type, bounds and format |
| JsonSchemaGen.GenerateSetType | modules/json-schema/src/lib.rs:527-565 | a set's schema is an object, and it fails exactly when a bound of the restriction does not fit an unsigned 64-bit integer |
| JsonSchemaGen.SetMembers | modules/json-schema/src/lib.rs:527-565 | a set's schema is an array of unique items of the item schema with its non-zero minimum and its maximum |
| JsonSchemaGen.SetTypeReadsBack | modules/json-schema/src/lib.rs:527-565 | a set's schema reads back as an array of unique items of the item schema with the restriction's bounds |
| JsonSchemaGen.ArrayValidationReads | modules/json-schema/src/lib.rs:527-565 | the array keywords of a set schema read back as its bounds and uniqueness |
| JsonSchemaGen.NullSchema | modules/json-schema/src/lib.rs:505-506 | the null schema is an object of type `null` |
| JsonSchemaGen.GenerateOptionType | modules/json-schema/src/lib.rs:496-525 | an option's schema is the choice between the null schema and the item schema |
| JsonSchemaGen.NullSchemaReads | modules/json-schema/src/lib.rs:505-506 | the null schema reads back as a plain schema of type null |
| JsonSchemaGen.OnlyTypeReads | modules/json-schema/src/lib.rs:505-506 | an object whose only key names one type reads as a plain schema of that type |
| JsonSchemaGen.OptionTypeReadsBack | modules/json-schema/src/lib.rs:496-525 | an option's schema reads back as the choice between null and the item schema |
| JsonSchemaGen.TwoChoiceReads | modules/json-schema/src/lib.rs:518-523 | an object holding only an `anyOf` of two schemas reads as the choice between them |
| JsonSchemaImport.RefineAsWritten | modules/json-schema/src/import.rs:110-127 | as written, a refinement is above both kinds and below every kind above both, and otherwise an unsupported type |
| JsonSchemaImport.StringRefineFails | modules/json-schema/src/import.rs:110-127 | as written, a string kind cannot be refined by a string, although every other kind refines by itself |
| JsonSchemaImport.Refine | modules/json-schema/src/import.rs:110-127 | corrected: the refinement is the least kind above both, and otherwise an unsupported type |
| JsonSchemaImport.RefineLaws | modules/json-schema/src/import.rs:110-127 | refining by the same kind or from an unknown kind keeps the other; the correction differs from the source only on two strings; a number refined by an integer stays a number but not the other way round |
| JsonSchemaImport.KindOfType | modules/json-schema/src/import.rs:257-271 | every JSON Schema type but `null` calls for a known kind, and `null` is rejected |
| JsonSchemaImport.KindOfTypes | modules/json-schema/src/import.rs:257-271 | the kind after the listed types is above the kind before them |
| JsonSchemaImport.KindOfTypesRepeated | modules/json-schema/src/import.rs:257-271 | listing a type several times is listing it once, except that `string` twice is rejected |
| JsonSchemaImport.FormatLayout | modules/json-schema/src/import.rs:495-520 | exactly `date-time`, `date`, `time` and `uri` have a primitive layout, and the other formats are unimplemented |
| JsonSchemaImport.FormatLayoutInjective | modules/json-schema/src/import.rs:495-520 | distinct supported formats have distinct layouts |
| JsonSchemaImport.PrimitiveOfKind | modules/json-schema/src/import.rs:277-283 | boolean, integer, number and string kinds have a primitive layout, a number's being a double |
| JsonSchemaImport.ArrayChoice | modules/json-schema/src/import.rs:410-433 | `uniqueItems: true` makes a set and anything else an array, accepted exactly when the kind allows it |
| JsonSchemaImport.NumericBounds | modules/json-schema/src/import.rs:318-360 | the numeric restrictions are the minimum, exclusive minimum, maximum and exclusive maximum that are given, and none when none is |
| JsonSchemaImport.KindAndPrimitive | modules/json-schema/src/import.rs:256-283 | a `format` makes the kind a string with the format's layout; otherwise the layout is the kind's primitive |
| JsonSchemaImport.DefinitionKind | modules/json-schema/src/import.rs:292-306 | string keywords make the kind a string, array keywords an array or set, object keywords a struct, each above the kind before |
| JsonSchemaImport.ImportShape | modules/json-schema/src/import.rs:250-407 | a non-primitive description comes from a definition; an array is a set exactly with `uniqueItems: true`; numeric restrictions are the schema's bounds |
| JsonSchemaImport.ImportPrimitiveType | modules/json-schema/src/import.rs:285-289 | a schema with nothing but a primitive `type` is that primitive |
| JsonSchemaImport.ImportFormat | modules/json-schema/src/import.rs:272-289 | a schema with a supported format and no `type` is that format's layout |
| JsonSchemaImport.ImportStringFormat | modules/json-schema/src/import.rs:272-274 | as written, `"type": "string"` with a `format` is rejected |
| JsonSchemaImport.ImportFields | modules/json-schema/src/import.rs:435-493 | an object's fields are its properties, in key order, each with its schema's layout, wrapped in an option exactly when not required; it fails exactly on a property name that is not a TreeLDR name, reporting it |
| JsonSchemaImport.ImportFieldsFresh | modules/json-schema/src/import.rs:435-493 | the fields are fresh blank nodes, distinct from each other and from every one handed out before |
| JsonSchemaLegacyImport.ValueIntoObject | json-schema/src/import.rs:448-484 | booleans are `schema:True`/`schema:False`, numbers `xsd:integer` literals, strings plain literals, arrays RDF lists that are `rdf:nil` exactly when empty; `null` and objects are unimplemented |
| JsonSchemaLegacyImport.ItemsIntoList | json-schema/src/import.rs:513-584 | the list of the items from a position is `rdf:nil` exactly when none is left, and otherwise the last blank node handed out |
| JsonSchemaLegacyImport.ScalarObject | json-schema/src/import.rs:448-484 | a scalar's object does not depend on the blank node generator, and writes no quads |
| JsonSchemaLegacyImport.ScalarArrayIsRdfList | json-schema/src/import.rs:513-584 | an array of scalars is written exactly as the core's RDF list export writes the list of their objects |
| JsonSchemaLegacyImport.ScalarListStep | json-schema/src/import.rs:513-584 | the list of the items from a position is that item's cell after the list of the items after it |
| JsonSchemaLegacyImport.ScalarItemStep | json-schema/src/import.rs:540-580 | a scalar item's list cell comes after the quads of the rest of the list, with the next blank node |
| JsonSchemaLegacyImport.ScalarArrayReadsBack | json-schema/src/import.rs:448-484 | an array of scalars reads back, following `rdf:first` and `rdf:rest` from its object, as its items' objects |
| JsonSchemaLegacyImport.FormatLayout | json-schema/src/import.rs:486-510 | exactly `date-time`, `date`, `time` and `iri` have a native XSD layout, and the other formats are unimplemented |
| JsonSchemaLegacyImport.NativeOfKind | json-schema/src/import.rs:283-298 | boolean, integer, number and string kinds have a native XSD layout |
| JsonSchemaLegacyImport.NativeLayout | json-schema/src/import.rs:283-298 | a `format` decides the native layout, and otherwise the kind does |
| JsonSchemaLegacyImport.FieldEmitter | json-schema/src/import.rs:351-446 | every quad written for a field is about that field |
| JsonSchemaLegacyImport.FieldQuadsMark | json-schema/src/import.rs:351-446 | a field is marked `schema:valueRequired` exactly when its property is required |
| JsonSchemaLegacyImport.RequiredMarks | json-schema/src/import.rs:351-446 | among the fields handed out, exactly the required properties' fields are marked |
| JsonSchemaLegacyImport.ImportObjectSchema | json-schema/src/import.rs:351-446 | an object schema uses two blank nodes per property, and writes only about the layout and its own fresh nodes |
| JsonSchemaLegacyImport.ImportObjectFields | json-schema/src/import.rs:351-446 | the layout's `treeldr:fields` is a list of exactly the fields in property order, and exactly the required properties' fields are marked |
| JsonSchemaSyntax.TryBool | modules/json-schema/src/schema/from_syntax.rs:85-90 | a value reads as a boolean exactly when it is one, and otherwise is not a boolean |
| JsonSchemaSyntax.TryNumber | modules/json-schema/src/schema/from_syntax.rs:92-97 | a value reads as a number exactly when it is one, and otherwise is not a number |
| JsonSchemaSyntax.TryU64 | modules/json-schema/src/schema/from_syntax.rs:43-47 | a value reads as a `u64` exactly when it is an integer number below 2^64; another number is not a positive integer and anything else not a number |
| JsonSchemaSyntax.TryString | modules/json-schema/src/schema/from_syntax.rs:99-104 | a value reads as a string exactly when it is one, and otherwise is not a string |
| JsonSchemaSyntax.TryArray | modules/json-schema/src/schema/from_syntax.rs:106-111 | a value reads as an array exactly when it is one, and otherwise is not an array |
| JsonSchemaSyntax.TryObject | modules/json-schema/src/schema/from_syntax.rs:113-118 | a value reads as an object exactly when it is one, and otherwise is not an object |
| JsonSchemaSyntax.TryUri | modules/json-schema/src/schema/from_syntax.rs:75-77 | a value reads as a URI exactly when it is a string that is an IRI; another string is an invalid URI |
| JsonSchemaSyntax.TryStrings | modules/json-schema/src/schema/from_syntax.rs:59-65 | items read as strings exactly when all are strings, giving them in order |
| JsonSchemaSyntax.TryStringArray | modules/json-schema/src/schema/from_syntax.rs:59-65 | a value reads as a string array exactly when it is an array of strings, giving them in order; anything else is not an array |
| JsonSchemaSyntax.Optional | modules/json-schema/src/schema/from_syntax.rs:125-153 | an absent keyword reads as nothing, and a present one as its value read, or that reading's error |
| JsonSchemaSyntax.ReadType | modules/json-schema/src/schema/from_syntax.rs:434-448 | a type is read from a string, and any other string is an invalid type |
| JsonSchemaSyntax.ReadTypeRoundTrip | modules/json-schema/src/schema/from_syntax.rs:434-448 | each type is read back from its name, and a string reads as a type only when it is that type's name |
| JsonSchemaSyntax.ReadFormat | modules/json-schema/src/schema/from_syntax.rs:454-480 | a format is read from a string, and any other string is an unknown format |
| JsonSchemaSyntax.ReadFormatRoundTrip | modules/json-schema/src/schema/from_syntax.rs:454-480 | each format is read back from its name, and a string reads as a format only when it is that format's name |
| JsonSchemaSyntax.ReadFormatName | modules/json-schema/src/schema/from_syntax.rs:454-480 | each format is read back from its name |
| JsonSchemaSyntax.FormatNameRead | modules/json-schema/src/schema/from_syntax.rs:454-480 | a string reads as a format only when it is that format's name |
| JsonSchemaSyntax.ReadMetaData | modules/json-schema/src/schema/from_syntax.rs:125-153 | the title, default and examples are present exactly when their keywords are, and an object with no meta-data keyword has none |
| JsonSchemaSyntax.ReadVocabulary | modules/json-schema/src/schema/from_syntax.rs:158-172 | every `$vocabulary` key is kept and must be an IRI |
| JsonSchemaSyntax.ReadMetaSchema | modules/json-schema/src/schema/from_syntax.rs:155-174 | `$schema` and `$vocabulary` are read exactly when present |
| JsonSchemaSyntax.ReadTypes | modules/json-schema/src/schema/from_syntax.rs:303-326 | a list of type names reads as the types, one per name, in order |
| JsonSchemaSyntax.ReadTypeValue | modules/json-schema/src/schema/from_syntax.rs:303-326 | `type` is a list of type names, or one name read as a list of one |
| JsonSchemaSyntax.ReadAnyValidation | modules/json-schema/src/schema/from_syntax.rs:303-326 | the types are present exactly when `type` is, and `const` is kept as it is |
| JsonSchemaSyntax.ReadNumericValidation | modules/json-schema/src/schema/from_syntax.rs:328-353 | `maximum` and `minimum` are read exactly when present |
| JsonSchemaSyntax.ReadStringValidation | modules/json-schema/src/schema/from_syntax.rs:355-372 | `maxLength` and `pattern` are read exactly when present |
| JsonSchemaSyntax.ReadArrayValidation | modules/json-schema/src/schema/from_syntax.rs:374-399 | `uniqueItems` and `minItems` are read exactly when present |
| JsonSchemaSyntax.ReadDependentRequired | modules/json-schema/src/schema/from_syntax.rs:417-425 | every `dependentRequired` key is kept |
| JsonSchemaSyntax.ReadObjectValidation | modules/json-schema/src/schema/from_syntax.rs:401-429 | `required` is read exactly when present |
| JsonSchemaSyntax.ReadValidation | modules/json-schema/src/schema/from_syntax.rs:292-301 | `format` is read exactly when present, and `const` is kept |
| JsonSchemaSyntax.TrySchema | modules/json-schema/src/schema/from_syntax.rs:486-551 | `true` and `false` are boolean schemas; an object with `$ref` is a reference, then one with `$dynamicRef` a dynamic reference; only an object without both is regular; anything else is an invalid schema |
| JsonSchemaSyntax.ReadRegularSchema | modules/json-schema/src/schema/from_syntax.rs:500-551 | a schema object without references reads as a regular schema |
| JsonSchemaSyntax.TrySchemaItems | modules/json-schema/src/schema/from_syntax.rs:51-57 | an array of schemas reads as one schema per item |
| JsonSchemaSyntax.SchemasFrom | modules/json-schema/src/schema/from_syntax.rs:51-57 | the schemas of all-schema items are one per item |
| JsonSchemaSyntax.TrySchemaItemsAll | modules/json-schema/src/schema/from_syntax.rs:51-57 | an array whose items are all schemas reads as those schemas, in order |
| JsonSchemaSyntax.AllSchemasIndex | modules/json-schema/src/schema/from_syntax.rs:51-57 | the items read as schemas exactly when each one does |
| JsonSchemaSyntax.SchemasFromIndex | modules/json-schema/src/schema/from_syntax.rs:51-57 | each item reads as the schema at its own position |
| JsonSchemaSyntax.TrySchemaMembers | modules/json-schema/src/schema/from_syntax.rs:246-290 | an object of schemas keeps every key it reads |
| JsonSchemaSyntax.OptionalSchema | modules/json-schema/src/schema/from_syntax.rs:206-290 | an absent keyword is no schema, and a present one that reads is a schema |
| JsonSchemaSyntax.OptionalSchemaArray | modules/json-schema/src/schema/from_syntax.rs:176-204 | an absent keyword is no schema array, and a present one that reads is one |
| JsonSchemaSyntax.OptionalSchemaMap | modules/json-schema/src/schema/from_syntax.rs:246-290 | an absent keyword is no schema map, and a present one that reads is one |
| JsonSchemaSyntax.ReadDescriptionWith | modules/json-schema/src/schema/from_syntax.rs:176-204 | corrected: `allOf` wins over `anyOf`, then `oneOf`, `not` and `if`; with none of them the schema is a definition; an `if`'s alternative is present exactly when `else` is |
| JsonSchemaSyntax.ReadDescriptionAsWritten | modules/json-schema/src/schema/from_syntax.rs:176-204 | as written, an `if`'s alternative is read from `els`; without an `if` that matters it agrees with the corrected reading |
| JsonSchemaSyntax.ElseIsLost | modules/json-schema/src/schema/from_syntax.rs:193 | as written, the alternative of `{"if": true, "else": false}` is lost |
| JsonSchemaSyntax.ElseIsRead | modules/json-schema/src/schema/from_syntax.rs:185-196 | with the JSON Schema keyword, that alternative is read |
| JsonSchemaValidation.IsEmptyMeaning | json-schema/src/schema/validation.rs:79-225 | the numeric, string, array and object keyword groups are each empty exactly when they hold no keyword |
| JsonSchemaValidation.IsPrimitiveMeaning | json-schema/src/schema/validation.rs:25-31 | validation is primitive exactly when it has no `const`, no `enum` and no numeric, string or array keyword; the object keywords, `format` and `type` do not matter |
| LayoutJson.PositionIsOffset | layouts/src/abs/syntax/mod.rs:86-102 | every syntax error is reported at the offset it carries |
| LayoutJson.Hints | layouts/src/abs/syntax/mod.rs:104-117 | a duplicate entry points to the other occurrence, an invalid type lists the accepted and the found values, and other errors have no hint |
| LayoutJson.HintPosition | layouts/src/abs/syntax/mod.rs:155-160 | only the duplicate-entry hint points somewhere |
| LayoutJson.ExpectedTypeText | layouts/src/abs/syntax/mod.rs:164-185 | one accepted value reads "only possible value is" it, several are quoted with commas between them and "and" before the last |
| LayoutJson.ExpectedTypeExample | layouts/src/abs/syntax/mod.rs:170-183 | three names read "`a`, `b` and `c`" |
| LayoutJson.WithKey | layouts/src/abs/syntax/mod.rs:238-260 | the entries found for a key all have that key, and there are none exactly when no entry has it |
| LayoutJson.UniqueEntry | layouts/src/abs/syntax/mod.rs:238-260 | a key has no entry, one entry that is in the object, or a duplicate-entry error for that key |
| LayoutJson.GetEntry | layouts/src/abs/syntax/mod.rs:238-260 | an optional entry is absent exactly when the object has no such key |
| LayoutJson.RequireEntry | layouts/src/abs/syntax/mod.rs:262-285 | a missing required entry is reported at the object's offset, and a present one is its value read |
| LayoutJson.RequireIsGetPresent | layouts/src/abs/syntax/mod.rs:238-285 | a required entry reads as a value exactly when the optional entry reads as that value |
| LayoutJson.RequireType | layouts/src/abs/syntax/mod.rs:287-308 | a missing `type` is reported at the object; one that is not a string is unexpected; otherwise it is the `type` string and its offset |
| LayoutJson.CheckType | layouts/src/abs/syntax/mod.rs:310-326 | `type` is accepted exactly when it is the expected name; another name is an invalid type naming the one expected |
| LayoutJson.ReadAll | layouts/src/abs/syntax/mod.rs:377-391 | items read as one value each, in order, and a failure is one item's failure |
| LayoutJson.OneOrManyFromJson | layouts/src/abs/syntax/mod.rs:377-391 | an array reads as many values, even one, and anything else as one value |
| LayoutJson.OneOrManyArraySlice | layouts/src/abs/syntax/mod.rs:350-391 | reading then flattening an array gives its items read, in order |
| LayoutJson.ReadOrLayout | layouts/src/abs/syntax/mod.rs:404-426 | a string is a layout reference when it is a compact IRI, an object with `type` an inline layout, any other object the other form, and anything else unexpected |
| LayoutSyntax.TypeOfName | layouts/src/abs/syntax/layout/mod.rs:174-227 | a recognised layout type name is that type's name |
| LayoutSyntax.TypeNameRoundTrip | layouts/src/abs/syntax/layout/mod.rs:174-227 | every layout type is recognised by its name, so the names are distinct |
| LayoutSyntax.Names | layouts/src/abs/syntax/layout/mod.rs:209-223 | the accepted names are the types' names, in order |
| LayoutSyntax.LayoutTypesComplete | layouts/src/abs/syntax/layout/mod.rs:174-227 | a layout object accepts all thirteen types, each once |
| LayoutSyntax.DispatchType | layouts/src/abs/syntax/layout/mod.rs:174-227 | a `type` is accepted exactly when it names an accepted type; otherwise the error, at the `type` value, lists the accepted names |
| LayoutSyntax.DispatchAcceptsNames | layouts/src/abs/syntax/layout/mod.rs:174-227 | a `type` string is accepted exactly when it is one of the accepted names |
| LayoutSyntax.VariantOf | layouts/src/abs/syntax/layout/mod.rs:180-205 | the six literal types pick the literal variant, `id` being the identifier literal, and `list`, `set`, `tuple` the list variant |
| LayoutSyntax.ReadLayout | layouts/src/abs/syntax/layout/mod.rs:152-168 | a layout is `true`, `false` or an object whose `type` picks the variant; anything else is unexpected |
| LayoutSyntax.ReadLayoutUnknownType | layouts/src/abs/syntax/layout/mod.rs:207-225 | an unknown `type` is rejected with all thirteen names |
| LayoutSyntax.ReadLiteral | layouts/src/abs/syntax/layout/literal.rs:40-70 | a literal layout reads exactly when its `type` is `id` or one of the data types |
| LayoutSyntax.ReadData | layouts/src/abs/syntax/layout/literal.rs:125-161 | a data layout is one of the five data types |
| LayoutSyntax.ReadList | layouts/src/abs/syntax/layout/list.rs:39-67 | a list layout is `list`, `set` or `tuple` |
| LayoutSyntax.NestedDispatchAgrees | layouts/src/abs/syntax/layout/list.rs:39-67 | the literal and list dispatches agree with the layout dispatch on every type they accept |
| LayoutSyntax.ReadLayoutRef | layouts/src/abs/syntax/layout/mod.rs:302-318 | a reference is a compact IRI string or an inline layout object, and anything else is unexpected |
| LayoutSyntax.OrLayoutAgreesWithRef | layouts/src/abs/syntax/mod.rs:404-426 | a value format position reads a string or an object with `type` exactly as a layout reference |
| LayoutSyntax.DefaultValueInputSpec | layouts/src/abs/syntax/layout/mod.rs:359-362 | the default input is exactly the single variable `self` |
| LayoutSyntax.LayoutIdOf | layouts/src/abs/syntax/layout/mod.rs:236-244 | a layout's id is its IRI resolved in the scope, or the next blank node |
| LayoutSyntax.RegisterLayout | layouts/src/abs/syntax/layout/mod.rs:236-263 | an id or body error stores nothing; otherwise the layout is stored, and an id that already held one is a redefinition |
| LayoutSyntax.AnonymousNeverRedefines | layouts/src/abs/syntax/layout/mod.rs:236-263 | an anonymous layout is never a redefinition |
| LayoutSyntax.NamedTwiceRedefines | layouts/src/abs/syntax/layout/mod.rs:236-263 | registering two layouts under the same IRI fails the second time |
| LayoutSyntax.DefaultListDataset | layouts/src/abs/syntax/layout/list.rs:185-211 | a list node describes by default exactly `head rdf:first first` and `head rdf:rest rest` |
| LayoutSyntax.LayoutNode | layouts/src/abs/syntax/layout/list.rs:219-235 | a bare layout in a list node introduces one variable, its input, as the node's `first` |
| LayoutSyntax.ListNodeScope | layouts/src/abs/syntax/layout/list.rs:330-337 | a list node's scope binds the head, the rest and the node's intros |
| LayoutSyntax.ListNodeScopeIndices | layouts/src/abs/syntax/layout/list.rs:330-337 | the head is the old variable count, the rest the next, and the intros follow |
| LayoutSyntax.NodeDefaultDataset | layouts/src/abs/syntax/layout/list.rs:341-356 | without a dataset, a format's only input is `first`, a bare layout's `value` variable is, and a format with another number of inputs describes nothing |
| LayoutSyntax.ItemSubject | layouts/src/abs/syntax/layout/list.rs:461-466 | an item's subject is the first input exactly when the list has inputs |
| LayoutSyntax.ItemWithoutInputHasNoSubject | layouts/src/abs/syntax/layout/list.rs:481-515 | an item with a property in a list without input has no subject |
| LayoutSyntax.LiteralDatatype | layouts/src/abs/syntax/layout/literal.rs:290-295 | a literal's datatype is its explicit one resolved, or the layout's default |
| LayoutSyntax.DefaultDatatype | layouts/src/abs/syntax/layout/literal.rs:277-298 | booleans default to `xsd:boolean` and text strings to `xsd:string`; numbers and byte strings have no default |
| LayoutSyntax.ReadDatatype | layouts/src/abs/syntax/layout/literal.rs:304-381 | `datatype` is optional for booleans and text strings and required for numbers and byte strings |
| LegacyBuild.Offset | src/syntax/build.rs:97-102 | a root scope's indices start at zero |
| LegacyBuild.Len | src/syntax/build.rs:104-106 | a scope spans at least the indices its ancestors span |
| LegacyBuild.Get | src/syntax/build.rs:115-130 | in a root scope an index finds the variable declared at that position |
| LegacyBuild.IndexOf | src/syntax/build.rs:132-142 | a name bound in this scope resolves to its binding; an unbound name is looked up in the ancestors, and a root scope fails exactly on an unbound name, naming it |
| LegacyBuild.Insert | src/syntax/build.rs:108-113 | as written, a declaration gets the scope's length as index, but the length does not grow |
| LegacyBuild.SecondVariableResolvesToFirst | src/syntax/build.rs:108-113 | as written, two variables of one scope resolve to the same index, which holds the first |
| LegacyBuild.InsertCounted | src/syntax/build.rs:108-113 | corrected: a declaration gets the scope's length as index and the length grows by one |
| LegacyBuild.IndexOfGet | src/syntax/build.rs:115-142 | in a consistent scope, the index a name resolves to holds a variable of that name |
| LegacyBuild.IndexBelowLen | src/syntax/build.rs:104-142 | in a consistent scope a resolved index is below the scope's length |
| LegacyBuild.InsertCountedConsistent | src/syntax/build.rs:108-142 | a counted declaration keeps the scope consistent, and the new name resolves to its own variable |
| LegacyBuild.InsertCountedBinding | src/syntax/build.rs:108-142 | after a counted declaration every binding points at a variable of its name |
| LegacyBuild.InsertCountedGet | src/syntax/build.rs:108-130 | the counted variable is found at the scope's former length |
| LegacyBuild.Begin | src/syntax/build.rs:148-157 | a child scope starts at its parent's length and declares the bindings in order |
| LegacyBuild.InsertAll | src/syntax/build.rs:148-157 | as written, declaring several variables leaves the length unchanged |
| LegacyBuild.BeginCounted | src/syntax/build.rs:148-157 | corrected: a child scope spans its parent's indices and one more per binding |
| LegacyBuild.InsertAllCounted | src/syntax/build.rs:148-157 | counted declarations grow the length by one per name and keep the parent |
| LegacyBuild.InsertAllCountedConsistent | src/syntax/build.rs:148-157 | a scope opened with counted declarations stays consistent, and each declared name resolves to a variable of that name |
| LegacyBuild.InsertAllCountedKeeps | src/syntax/build.rs:108-142 | declarations of other names leave a name's binding and its variable where they were |
| LegacyBuild.GetKept | src/syntax/build.rs:108-130 | a counted declaration leaves every earlier index's variable in place |
| LegacyBuild.BeginCountedResolves | src/syntax/build.rs:148-157 | a counted child scope of a consistent scope is consistent, and each of its names resolves to its own variable |
| LegacyBuild.BuildCompactIri | src/syntax/build.rs:600-611 | `prefix:suffix` fails with an unknown prefix, and otherwise expands to the prefix's IRI followed by the suffix |
| LegacyBuild.BuildCallArgs | src/syntax/build.rs:875-895 | a call succeeds exactly when it has as many arguments as the signature, pairing each argument with its type, and otherwise reports both counts |
| LegacyBuild.HexValue | src/syntax/build.rs:1021-1031 | exactly the hexadecimal digits have a value, below sixteen |
| LegacyBuild.CharFromCode | src/syntax/build.rs:1033-1058 | exactly the Unicode scalar values name a character |
| LegacyBuild.DecodeBraced | src/syntax/build.rs:1036-1058 | a `\u{…}` escape consumes input, and its only error is the string error |
| LegacyBuild.DecodeEscape | src/syntax/build.rs:1019-1068 | an escape consumes input, and its only error is the string error |
| LegacyBuild.DecodeUnicode | src/syntax/build.rs:1036-1060 | the escape after `\u` consumes input, and its only error is the string error |
| LegacyBuild.DecodeContent | src/syntax/build.rs:1012-1076 | text without a backslash decodes to itself, and the only error is the string error |
| LegacyBuild.Decode | src/syntax/build.rs:1012-1076 | the content between the quotes is decoded: the only error is the string error, content without a backslash is taken as it is, and a quoted escaped string decodes to the original |
| LegacyBuild.EscapeCharDecodes | src/syntax/build.rs:1019-1068 | an escaped character decodes to itself before whatever follows |
| LegacyBuild.DecodeEscaped | src/syntax/build.rs:1012-1076 | decoding undoes escaping |
| LegacyBuild.DecodeQuoted | src/syntax/build.rs:1012-1076 | a quoted escaped string decodes to the original |
| LegacyBuild.EscapeExamples | src/syntax/build.rs:1021-1058 | `\u{41}` and `\x41` both decode to `A` |
| LegacyBuild.BadEscapeExamples | src/syntax/build.rs:1036-1068 | a brace escape with one digit, an unknown escape letter and a surrogate code point are rejected |
| LegacyLexing.KeywordRoundTrip | src/syntax/lexing.rs:220-239 | every keyword is read back from its name, a recognised name is its keyword's name, and `base` and `use` are plain names |
| LegacyLexing.NextDoc | src/syntax/lexing.rs:404-418 | a documentation token is the rest of its line after the two characters following the first slash, without the line feed |
| LegacyLexing.NextName | src/syntax/lexing.rs:420-433 | a name runs over the following alphanumeric characters and stops at the first other one or at the end |
| LegacyLexing.IdOfIriTextSpec | src/syntax/lexing.rs:435-474 | a compact identifier splits its text at the first colon and its suffix does not start with `//`; a full IRI reference is the whole text; anything else is an invalid identifier |
| LegacyLexing.NextIri | src/syntax/lexing.rs:435-474 | an IRI token runs up to the first `>` or the end of the text, and reads exactly when its text is an identifier |
| LegacyLexing.Consume | src/syntax/lexing.rs:495-523 | a token is read after skipping blank text and ends past its start; there is none exactly at the end of the text |
| LegacyLexing.NextBlock | src/syntax/lexing.rs:476-493 | a block ends just after its closing delimiter |
| LegacyLexing.BlockAtEnd | src/syntax/lexing.rs:476-493 | a block that reaches the end of the text fails with an unexpected end |
| LegacyLexing.DocCommentToken | src/syntax/lexing.rs:373-418 | a `//` comment is skipped but `///` starts a documentation token |
| LegacyLexing.BlockExample | src/syntax/lexing.rs:476-523 | `{a,b}` is one brace block holding `a`, a comma and `b` |
| LegacyLexing.UnclosedBlockExample | src/syntax/lexing.rs:476-493 | an unclosed block fails at the end of the text |
| LegacyParsing.ParseId | src/syntax/parsing.rs:162-168 | an identifier is read exactly from an identifier token, and anything else, keywords included, is an unexpected token |
| LegacyParsing.ParseAlias | src/syntax/parsing.rs:313-321 | an alias is read exactly from a plain name; another identifier is an invalid alias and another token unexpected |
| LegacyParsing.ParseDocumentation | src/syntax/parsing.rs:172-189 | the documentation is the doc comments up to the first other token, which is left |
| LegacyParsing.DocumentationRoundTrip | src/syntax/parsing.rs:172-189 | reading printed doc comments gives them back and leaves what follows |
| LegacyParsing.BlockRoundTrip | src/syntax/parsing.rs:87-127 | a brace block of comma-separated printed entries reads back as those entries |
| LegacyParsing.TypeRoundTrip | src/syntax/parsing.rs:193-236 | a printed type definition with its properties reads back as itself |
| LegacyParsing.LayoutRoundTrip | src/syntax/parsing.rs:193-236 | a printed layout definition with its fields reads back as itself |
| LegacyParsing.ItemRoundTrip | src/syntax/parsing.rs:193-236 | every printed item reads back as itself, leaving what follows |
| LegacyParsing.ItemUnexpected | src/syntax/parsing.rs:193-236 | an item without `type` or `layout` after its doc comments is an error naming the token found |
| LegacyParsing.DocumentRoundTrip | src/syntax/parsing.rs:141-158 | a printed document reads back as its items |
| LexiconPrimitives.Header | modules/lexicon/src/import/primitive.rs:42-60 | every processed primitive starts by declaring its node a layout with its name |
| LexiconPrimitives.RdfList | modules/lexicon/src/import/primitive.rs:179-221 | a collection takes one fresh node per item, two triples each, and its head is `rdf:nil` exactly when it is empty and otherwise the first fresh node |
| LexiconPrimitives.RdfListShape | modules/lexicon/src/import/primitive.rs:179-221 | a collection only speaks about its own fresh nodes, with `rdf:first` and `rdf:rest` |
| LexiconPrimitives.Lookup | modules/lexicon/src/import/primitive.rs:179-221 | a lookup finds a triple with the subject and predicate, and none means there is none |
| LexiconPrimitives.RdfListReadsBack | modules/lexicon/src/import/primitive.rs:179-221 | a collection reads back as its items wherever it sits among triples about other nodes |
| LexiconPrimitives.ParseBool | modules/lexicon/src/import/primitive.rs:72-90 | a boolean literal is read exactly from `true` and `false` |
| LexiconPrimitives.BoolTextRoundTrip | modules/lexicon/src/import/primitive.rs:72-90 | a boolean's text reads back as the boolean |
| LexiconPrimitives.ProcessBoolean | modules/lexicon/src/import/primitive.rs:42-99 | a boolean is an alias of the boolean layout, or derived from it when it has a default |
| LexiconPrimitives.BooleanLookups | modules/lexicon/src/import/primitive.rs:42-99 | a boolean is an alias exactly without a default and derived exactly with one |
| LexiconPrimitives.BooleanDefault | modules/lexicon/src/import/primitive.rs:72-90 | a derived boolean's default is a typed literal that reads back as the given default |
| LexiconPrimitives.RestrictionNodes | modules/lexicon/src/import/primitive.rs:169-215 | one fresh restriction node per bound, in order |
| LexiconPrimitives.RestrictionNodesShape | modules/lexicon/src/import/primitive.rs:169-215 | restriction nodes speak only about themselves, with `rdf:type` or a bound, and each is declared a layout restriction |
| LexiconPrimitives.RestrictionNodesCount | modules/lexicon/src/import/primitive.rs:169-215 | the restriction nodes declare exactly one node per bound |
| LexiconPrimitives.RestrictionList | modules/lexicon/src/import/primitive.rs:169-221 | a derived layout's restrictions are the nodes, then their collection, then the `withRestrictions` link to its head |
| LexiconPrimitives.ListTriples | modules/lexicon/src/import/primitive.rs:179-221 | the collection and its link declare nothing |
| LexiconPrimitives.RestrictionListReads | modules/lexicon/src/import/primitive.rs:179-221 | the collection under `withRestrictions` reads back as the restriction nodes, in order |
| LexiconPrimitives.IntegerConstraints | modules/lexicon/src/import/primitive.rs:169-215 | an integer's bounds are restrictions, minimum first, each typed by the primitive's natural type |
| LexiconPrimitives.ProcessInteger | modules/lexicon/src/import/primitive.rs:103-221 | an integer starts with its header and an alias or derivation, and uses two fresh nodes per bound |
| LexiconPrimitives.IntegerFront | modules/lexicon/src/import/primitive.rs:140-158 | an integer is derived exactly when it has a default or a bound, the default then being a typed literal; otherwise it is an alias |
| LexiconPrimitives.IntegerRestrictions | modules/lexicon/src/import/primitive.rs:103-221 | each bound of an integer adds exactly one restriction node, listed under `withRestrictions` |
| LexiconPrimitives.StringConstraints | modules/lexicon/src/import/primitive.rs:273-364 | a string's length and grapheme bounds are restrictions in the source's order, each a non-negative integer |
| LexiconPrimitives.StringFront | modules/lexicon/src/import/primitive.rs:225-272 | a string starts with its header and its description, and declares nothing there |
| LexiconPrimitives.ProcessString | modules/lexicon/src/import/primitive.rs:225-406 | a string starts with its header and uses two fresh nodes per bound |
| LexiconPrimitives.StringTail | modules/lexicon/src/import/primitive.rs:365-406 | the rest of a string uses two fresh nodes per bound |
| LexiconPrimitives.StringDefault | modules/lexicon/src/import/primitive.rs:382-388 | a string's default is only a default value |
| LexiconPrimitives.StringAlias | modules/lexicon/src/import/primitive.rs:365-406 | a string is an alias of the string layout exactly when it has no bound and no default |
| LexiconPrimitives.StringRestrictions | modules/lexicon/src/import/primitive.rs:273-406 | each present length or grapheme bound adds exactly one restriction node, listed under `withRestrictions` |
| LexiconPrimitives.EveryPrimitiveIsNamedLayout | modules/lexicon/src/import/primitive.rs:13-436 | every processed primitive, unknown types included, starts by declaring a layout with its name |
| Nsids.Segments | modules/lexicon/src/nsid.rs:78-100 | a text has at least one dot-separated segment |
| Nsids.StepAccounted | modules/lexicon/src/nsid.rs:78-100 | each step of the checker keeps its state in step with the segments read so far, or dooms the text |
| Nsids.Check | modules/lexicon/src/nsid.rs:78-100 | the checker accepts exactly the NSIDs: at least three segments, each an ASCII letter followed by letters, digits or `-` |
| Nsids.NewNsid | modules/lexicon/src/nsid.rs:11-17 | an NSID is built exactly from a valid string, which it keeps, and otherwise the error names the string |
| Nsids.AsIriPath | modules/lexicon/src/nsid.rs:32-40 | an NSID's IRI path has at least three non-empty segments without dots, which joined with dots give the NSID |
| Nsids.JoinSegments | modules/lexicon/src/nsid.rs:32-40 | joining a text's segments with dots gives the text back |
| Nsids.ExampleValid | modules/lexicon/src/nsid.rs:78-100 | `com.example.foo` is an NSID |
| Nsids.ExampleTooShort | modules/lexicon/src/nsid.rs:78-100 | `com.example` has too few segments |
| Nsids.ExampleEmptySegments | modules/lexicon/src/nsid.rs:78-100 | an empty segment, a trailing dot and the empty string are rejected |
| Nsids.ExampleDigitStart | modules/lexicon/src/nsid.rs:78-100 | a segment starting with a digit is rejected |
| Lexing.KeywordRoundTrip | syntax/src/lexing.rs:246-268 | every keyword is recognised by its own name |
| Lexing.KeywordFromNameInverse | syntax/src/lexing.rs:246-268 | a name is recognised exactly when it is the name of the keyword found |
| Lexing.DelimiterRoundTrip | syntax/src/lexing.rs:161-193 | opening and closing characters and delimiters correspond one to one, and only braces, parentheses and brackets are delimiters |
| Lexing.PunctFromCharSpec | syntax/src/lexing.rs:208-217 | exactly the comma, colon, ampersand, vertical bar and equals sign are marks, each read as the mark displayed by that character, and `_` is never read |
| Lexing.PunctRoundTrip | syntax/src/lexing.rs:208-230 | every mark but the underscore is read back from its character |
| Lexing.MatchesAny | syntax/src/lexing.rs:52-54 | a kind matches a list exactly when it matches one of its kinds |
| Lexing.MatchesSpec | syntax/src/lexing.rs:56-61 | matching is equality, extended only by keywords matching identifiers |
| Lexing.NoKeywordKind | syntax/src/lexing.rs:129-134 | after `no_keyword` a keyword is a name read back as that keyword, any other token is unchanged, and the kind still matches |
| Lexing.LineEnd | syntax/src/lexing.rs:447-477 | a line ends just after its first line feed, or at the end of the text |
| Lexing.SkipWhitespaces | syntax/src/lexing.rs:447-477 | whitespace and `//` comments are skipped, up to a `///` comment or any other character |
| Lexing.SkipWhitespacesUnique | syntax/src/lexing.rs:447-477 | blank text followed by a stopping point is exactly what is skipped |
| Lexing.DocCommentKept | syntax/src/lexing.rs:447-477 | a documentation comment is never skipped |
| Lexing.LineCommentSkipped | syntax/src/lexing.rs:447-477 | a line comment is skipped through its line feed |
| Lexing.NextEscape | syntax/src/lexing.rs:565-573 | a backslash escapes exactly the escapable characters, and anything else is unexpected |
| Lexing.EscapesArePunctuation | syntax/src/lexing.rs:565-573 | the escapable characters are ASCII punctuation, never a letter, digit, space, quote or backslash |
| Lexing.ShiftDigit | syntax/src/lexing.rs:544-563 | shifting a hex digit into a 32-bit register is the value modulo 2^32 |
| Lexing.NextHexChar | syntax/src/lexing.rs:544-563 | the digits read form a code point modulo 2^32, which must be a scalar value; the first non-digit, the end of the text or the invalid code point is reported |
| Lexing.NextLabel | syntax/src/lexing.rs:405-409 | each label is the counter, which then grows by one |
| Lexing.NextLabels | syntax/src/lexing.rs:405-409 | successive labels are increasing, fresh, and the counter grows by their number |
| OldBuild.TrimSpec | syntax/src/build-old.rs:631 | trimming keeps the slice after the leading whitespace, drops only whitespace after it, and leaves a string that neither starts nor ends with whitespace |
| OldBuild.TrimEmpty | syntax/src/build-old.rs:645 | a line trims to nothing exactly when it is all whitespace |
| OldBuild.TrimIdempotent | syntax/src/build-old.rs:631 | trimming a trimmed line changes nothing |
| OldBuild.DocParts | syntax/src/build-old.rs:617-657 | one pass over the trimmed lines yields the concatenated lines before the first empty one as the label, and the later lines, newline-joined without leading empty lines, as the description |
| OldBuild.BuildDoc | syntax/src/build-old.rs:617-690 | a label statement appears exactly when the label is not empty, then a comment statement exactly when the description is not empty |
| OldBuild.DocExample | syntax/src/build-old.rs:617-690 | label lines are concatenated without separator; empty lines right after the separator are dropped but later ones are kept |
| OldBuild.DeclarePrefix | syntax/src/build-old.rs:492-509 | a prefix is declared once: redeclaring it is an error naming it, otherwise only that prefix is added |
| OldBuild.ExpandCompactIri | syntax/src/build-old.rs:511-524 | an undeclared prefix is an error; otherwise the expansion is the prefix's IRI followed by the suffix, and it is an error exactly when that is not an IRI |
| OldBuild.DeclareThenExpand | syntax/src/build-old.rs:492-524 | a freshly declared prefix expands to its IRI followed by the suffix |
| OldBuild.BaseIri | syntax/src/build-old.rs:477-486 | references resolve against the enclosing definition's IRI opened as a directory, else the document's base, and fail only when there is neither |
| OldBuild.CheckBasesAsWritten | syntax/src/build-old.rs:537-557 | the base-declaration loop as written: a failure names a declared base differing from the one in the slot, and a success ends on the last base declared, the slot being emptied after each matching declaration |
| OldBuild.SameBaseTwiceThenOther | syntax/src/build-old.rs:537-557 | as written, `a, a, b` is accepted with base `b`, where the intended check rejects `b` against `a` |
| OldBuild.CheckBases | syntax/src/build-old.rs:537-557 | declarations are accepted exactly when they all equal the first, which is then the base; a mismatch names the first as expected |
| OldBuild.CheckBasesFrom | syntax/src/build-old.rs:537-557 | every later base is compared with the first; a mismatch names a differing base that was declared |
| OldBuild.CheckBasesShort | syntax/src/build-old.rs:537-557 | the loop as written and the intended check agree on at most two declarations |
| OldBuild.InsertLiteral | syntax/src/build-old.rs:143-238 | a literal seen before gets its old id and no statements; a new one gets the reserved id or a fresh blank, declared as class, layout and layout-for when blank, then a singleton or regexp statement; blank ids stay fresh |
| OldBuild.InsertLiteralTwice | syntax/src/build-old.rs:143-238 | inserting the same literal twice gives the same id and no new statements |
| OldBuild.InsertLiteralFresh | syntax/src/build-old.rs:143-238 | a new literal's blank id differs from every earlier literal's |
| OldBuild.RdfList | syntax/src/build-old.rs:989-1040 | the collection is built from the last item back: three statements per item, the head is Nil for no items and otherwise the last label drawn, and the counter grows by the number of items |
| OldBuild.LookupSpec | syntax/src/build-old.rs:989-1040 | a lookup returns a statement present in the graph, and fails exactly when no statement has that subject and property |
| OldBuild.LookupNode | syntax/src/build-old.rs:989-1040 | in a built collection each node's first and rest are its own item and the next node, or Nil for the last |
| OldBuild.RdfListRoundTrip | syntax/src/build-old.rs:989-1040 | following `rdf:rest` from the head reads back exactly the items, in order |
| Parsing.EndOfTextMessage | syntax/src/parsing.rs:75-78 | an unexpected end of text is reported as such, and an unexpected token by its rendering, whatever was expected |
| Parsing.ExpectedNote | syntax/src/parsing.rs:48-70 | no note when nothing was expected; otherwise one note `expected` followed by the kinds, comma-separated, with the given separator before the last |
| Parsing.EnumerateExamples | src/syntax/parsing.rs:30-50 | one kind is shown alone; the newest parser renders three kinds as `a, b or c` and the older ones, lacking a space, as `a, bor c` |
| Parsing.ExpectToken | syntax/src/parsing.rs:213-229 | reading succeeds exactly when the next token is the expected one, consuming only it; otherwise the error names the token found, or the end of the text, and the expected kind |
| Parsing.TryParse | syntax/src/parsing.rs:376-394 | nothing is read when the stream is empty or its next token does not start an item; otherwise the outcome is that of parsing the item |
| Parsing.CommaListRoundTrip | syntax/src/parsing.rs:164-185 | a comma-separated list reads back the items it was printed from and stops before whatever follows |
| Parsing.CommaListTerminatedRoundTrip | syntax/src/parsing.rs:164-185 | with a comma after every item, the list reads back all items and stops at the first token that starts none |
| Parsing.CommaLast | syntax/src/parsing.rs:164-185 | an item not followed by a comma ends the list |
| Parsing.StrictCommaListRoundTrip | src/syntax/parsing.rs:87-112 | the older parsers' block list reads back its items, with or without a trailing comma |
| Parsing.StrictCommaListMissingComma | src/syntax/parsing.rs:87-112 | after an item, a token other than a comma is an error naming it, with a comma expected |
| PrimitiveRestrictions.Insert | build/src/layout/primitive/restriction.rs:60-68 | the restriction is added; a duplicate merges its metadata into the existing entry, and every other entry is unchanged |
| PrimitiveRestrictions.EqIsMutualInclusion | build/src/layout/primitive/restriction.rs:44-56 | two restriction sets are equal exactly when each is included in the other, metadata ignored |
| PrimitiveRestrictions.UnifyMeaning | build/src/layout/primitive/restriction.rs:70-74 | the unified set includes both sides and nothing else, agrees with inserting the other side's restrictions one by one, keeps one-sided metadata, and is symmetric up to equality |
| PrimitiveRestrictions.InOrder | build/src/layout/primitive/restriction.rs:70-74 | a set's restrictions listed once each, in map order |
| PrimitiveRestrictions.InOrderSorted | build/src/layout/primitive/restriction.rs:93-154 | the iteration order is the map's order |
| PrimitiveRestrictions.BuildUnrestricted | build/src/layout/primitive/restriction.rs:78-91 | a boolean, date, time or IRI layout builds exactly when it has no restriction, and otherwise rejects the first one in map order |
| PrimitiveRestrictions.InsertMin | core/src/layout/primitive/restriction/template/float.rs:264-294 | a new minimum keeps exactly the values admitted before and at or above it, and conflicts only when no value is admitted |
| PrimitiveRestrictions.InsertMax | core/src/layout/primitive/restriction/template/float.rs:300-338 | a new maximum keeps exactly the values admitted before and at or below it, and conflicts only when no value is admitted |
| PrimitiveRestrictions.IntegerFoldMeaning | build/src/layout/primitive/restriction.rs:93-154 | folding restrictions into bounds admits exactly the integers every restriction admits; a pattern is rejected; a conflict means no integer meets them all |
| PrimitiveRestrictions.BuildIntegerMeaning | build/src/layout/primitive/restriction.rs:93-154 | the integer bounds admit exactly the integers meeting every restriction; failure names a pattern, or means the bounds are unsatisfiable |
| PrimitiveRestrictions.ExclusiveBoundsShift | build/src/layout/primitive/restriction.rs:93-154 | an exclusive minimum `n` is the inclusive minimum `n + 1`, an exclusive maximum `n` the inclusive maximum `n - 1` |
| PrimitiveRestrictions.BuildStringAccepts | build/src/layout/primitive/restriction.rs:326-352 | a string layout builds exactly when every restriction is a pattern, and its patterns are those |
| PrimitiveRestrictions.BuildStringRejects | build/src/layout/primitive/restriction.rs:326-352 | otherwise the error names the least non-pattern restriction |
| RegExps.Complement | layouts/src/abs/regexp.rs:356-418 | a negated set holds exactly the characters not listed |
| RegExps.Range | layouts/src/abs/regexp.rs:356-418 | a range holds exactly the characters between its ends, inclusive |
| RegExps.AsSingleton | layouts/src/abs/regexp.rs:143-151 | an expression has a singleton word exactly when it is a singleton |
| RegExps.PushSingleton | layouts/src/abs/regexp.rs:54-69 | pushing a singleton onto a singleton gives a singleton whose word is the concatenation |
| RegExps.PushIsEmpty | layouts/src/abs/regexp.rs:54-69 | a pushed expression is empty exactly when both sides are |
| RegExps.PushCharsSingleton | layouts/src/abs/regexp.rs:54-69 | pushing a string's characters onto a singleton appends the string to its word |
| RegExps.FromStringAsSingleton | layouts/src/abs/regexp.rs:446-455 | the expression built from a string is the singleton of that string |
| RegExps.RepeatEmptyAndSingleton | layouts/src/abs/regexp.rs:71-74 | a repetition zero to zero times is empty, and a repetition is a singleton exactly when its bounds agree and its body is one |
| RegExps.SimplifiedIsEmpty | layouts/src/abs/regexp.rs:76-112 | simplification preserves emptiness |
| RegExps.SimplifiedItemsIsEmpty | layouts/src/abs/regexp.rs:76-102 | simplified sequences hold no empty item, and hold none at all exactly when every original item was empty |
| RegExps.SimplifiedShape | layouts/src/abs/regexp.rs:76-102 | simplification drops empty items from sequences, unwraps one-option unions and keeps the options of every other union |
| RegExps.ParseEscapedChar | layouts/src/abs/regexp.rs:420-436 | an escape fails exactly at the end of the text, and otherwise reads the one character after the backslash |
| RegExps.ReadMember | layouts/src/abs/regexp.rs:356-418 | a set member is an escape sequence after a backslash, or the character itself |
| RegExps.Step | layouts/src/abs/regexp.rs:160-218 | an ordinary character advances by one and fails exactly when it is a `)` with no group open |
| RegExps.PostfixOperators | layouts/src/abs/regexp.rs:160-218 | `?`, `*` and `+` wrap the alternative being extended in a repetition zero-to-one, zero-to-unbounded and one-to-unbounded times |
| RegExps.ParseStarVector | layouts/src/abs/regexp.rs:627 | `a*` parses to a repetition of `a` from zero to unbounded times |
| RegExps.ParseUnionVector | layouts/src/abs/regexp.rs:631 | the text `(abc)` followed by a vertical bar and `de` parses to the union of `abc` and `de` |
| RegExps.ParseParentheses | layouts/src/abs/regexp.rs:160-218 | without sets and escapes, parsing fails on an unopened `)`, on a group left open, and succeeds exactly when the parentheses balance |
| RegExps.ParseCharsetLiterals | layouts/src/abs/regexp.rs:356-418 | `[^t]` denotes the complement of `t`'s characters, and `[t]` denotes them |
| RegExps.SingleOptionParse | layouts/src/abs/regexp.rs:160-218 | a text made of one character set parses to that set |
| RegExps.ParseCharsetUnclosed | layouts/src/abs/regexp.rs:356-418 | a set that is never closed fails with an incomplete character set |
| RegExps.ParseTrailingBackslash | layouts/src/abs/regexp.rs:160-218 | a trailing backslash fails with an incomplete escape sequence, unless an unmatched `)` comes first |
| Registry.EmptyContainsNothing | layouts/src/lib.rs:236-252 | a new collection holds no layout |
| Registry.ContainsIsGet | layouts/src/lib.rs:164-202 | a registry, present or absent, contains exactly the layouts it can get |
| Registry.AbsentContainsNothing | layouts/src/lib.rs:195-202 | an absent registry contains and gets nothing |
| Registry.With | layouts/src/lib.rs:169-172 | `a.with(b)` gets a layout from `a` when `a` has it, and from `b` otherwise |
| Registry.GetIsVisible | layouts/src/lib.rs:350-362 | a lookup finds the definition visible in the registry, the preferred side of a union winning |
| Registry.UnionContains | layouts/src/lib.rs:350-362 | a union contains exactly what either side contains |
| Registry.InsertWith | layouts/src/lib.rs:286-297 | the layout built from its reference is stored under it, every other entry is kept, and the previous definition is returned |
| Registry.Insert | layouts/src/lib.rs:276-278 | after an insertion the layout is found under its reference, every other lookup is unchanged, and the previous definition is returned |
| Registry.InsertUndo | layouts/src/lib.rs:276-297 | putting the returned previous definition back restores the collection |
| RustSyn.CommaSeparated | generators/rust/generator/src/lib.rs:195-205 | the `#(#names),*` repetition lays out one string literal per name with a comma between neighbours and none after the last, so `n` names give `2n - 1` tokens and no names give none |
| RustGenPath.LongestCommonPrefix | modules/rust/gen/src/lib.rs:95-102 | the longest common prefix is a prefix of both paths, and the two paths differ at the first segment after it whenever both go on |
| RustGenPath.LongestCommonPrefixGreatest | modules/rust/gen/src/lib.rs:95-102 | every common prefix of two paths is a prefix of their longest common prefix |
| RustGenPath.ToResolves | modules/rust/gen/src/lib.rs:104-118 | following the relative path `a.to(b)` from module `a`, with `super` leaving a module and an identifier entering one, arrives exactly at the absolute path `b` |
| RustGenPath.ToSelf | modules/rust/gen/src/lib.rs:104-118 | the path from a module to itself is empty |
| RustGenPath.ModulePath | modules/rust/gen/src/lib.rs:756-764 | a module's path is made of identifiers only, and it is empty exactly for the crate root |
| RustGenPath.AddModule | modules/rust/gen/src/lib.rs:782-796 | adding a module succeeds exactly when its parent is defined, returns the next index, and keeps every parent before its child and each module's sub-module set equal to the modules naming it as parent |
| RustGenPath.AddModuleKeepsPaths | modules/rust/gen/src/lib.rs:782-796 | adding a module does not change the path of any module already there |
| RustGenPath.AddModulePath | modules/rust/gen/src/lib.rs:838-842 | a module just added has its parent's path followed by its own name |
| RustGenPath.LayoutPath | modules/rust/gen/src/lib.rs:627-631 | a layout has no path exactly when its parent module is extern; otherwise its path is made of identifiers and ends with the layout's own name |
| RustGenPath.TypePath | modules/rust/gen/src/lib.rs:166-200 | naming a layout from a scope fails with `UnreachableType` exactly for an extern layout, and otherwise gives a relative path that leads from the scope to the layout's path |
| RustGenLayout.DescImplDefault | modules/rust/gen/src/lib.rs:324-352 | built-in collections implement `Default`; `!`, references, primitives and enums do not |
| RustGenLayout.FieldImplDefault | modules/rust/gen/src/lib.rs:510-513 | an optional field always has a default value, whatever its type |
| RustGenLayout.StructDefaultIff | modules/rust/gen/src/lib.rs:485-487 | a struct implements `Default` exactly when every one of its fields has a default value |
| RustGenLayout.StructNotDefaultIff | modules/rust/gen/src/lib.rs:485-487 | a struct does not implement `Default` exactly when some field lacks a default value and every field before it has one, as `all` stops at the first failure |
| RustGenLayout.DescImplDefaultMonotone | modules/rust/gen/src/lib.rs:324-338 | once the `Default` question has an answer within some recursion depth, every greater depth gives the same answer |
| RustGenLayout.FieldIdentOfName | modules/rust/gen/src/lib.rs:402-409 | a field identifier is never the keyword `type`; any other snake-case name is kept as it is, and `type` becomes `type_` |
| RustGenLayout.FieldIdentInjective | modules/rust/gen/src/lib.rs:402-409 | two names that do not end in an underscore get distinct field identifiers |
| RustGenLayout.GenerateStruct | modules/rust/gen/src/lib.rs:652-704 | each field is initialised with `Default::default()` exactly when its type has a default value and is a `new` input otherwise, and the struct derives `Default` exactly when `new` has no inputs |
| RustGenLayout.GeneratedDefaultAgrees | modules/rust/gen/src/lib.rs:652-704 | the generated struct derives `Default` exactly when the layout's `impl_default` holds, and the inputs of `new` are the fields without a default value, in order |
| RustGenLayout.AddLayout | modules/rust/gen/src/lib.rs:798-815 | adding a layout succeeds exactly when its parent module is defined, maps the layout to its description, records it among its module's layouts, and leaves the module tree's shape and paths as they were |
| RustSyntaxTy.IsEmpty | modules/rust/gen/src/syntax/ty.rs:125-129 | a set of derives is empty exactly when no trait's flag is set |
| RustSyntaxTy.Next | modules/rust/gen/src/syntax/ty.rs:136-149 | the iterator step yields nothing exactly when no flag is left; otherwise it yields the first set trait in declaration order, clears that flag alone, and leaves one flag fewer |
| RustSyntaxTy.DrainListsFlags | modules/rust/gen/src/syntax/ty.rs:136-149 | iterating a set of derives yields each set trait once, in declaration order, and nothing else |
| RustSyntaxTy.EmptyIffNoDerive | modules/rust/gen/src/syntax/ty.rs:125-149 | `is_empty` holds exactly when iterating yields nothing |
| RustSyntaxTy.DeriveAttribute | modules/rust/gen/src/syntax/ty.rs:172-179 | no `#[derive]` attribute is emitted exactly when no trait is set; otherwise it lists exactly the set traits |
| RustSyntaxTy.ParamsEmpty | modules/rust/gen/src/syntax/ty.rs:41-44 | the layout parameters are empty exactly when the identifier parameter is absent |
| RustSyntaxTy.ParamsNext | modules/rust/gen/src/syntax/ty.rs:60-68 | the iterator step yields the identifier parameter when present and takes it, leaving nothing |
| RustSyntaxTy.ParamsDrainListsSet | modules/rust/gen/src/syntax/ty.rs:41-82 | iterating the parameters yields exactly the ones that are set, and `is_empty` holds exactly when it yields nothing |
| RustSyntaxTy.StructConstructor | modules/rust/gen/src/syntax/ty.rs:205-229 | a struct gets `new() = Self::default()` exactly when it derives `Default`; otherwise `new` takes the constructor inputs and initialises each field with its own initial value |
| RustSyntaxTy.ConstructorMatchesDerive | modules/rust/gen/src/syntax/ty.rs:172-229 | the constructor is `Self::default()` exactly when the emitted derive attribute lists `Default` |
| RustDeriveParse.Insert | generators/rust/treeldr-rs-derive/src/parse.rs:17-22 | inserting a type into a type map built this way gives it an IRI not yet in the map, keeps every existing entry, and grows the map by one |
| RustDeriveParse.InsertAll | generators/rust/treeldr-rs-derive/src/parse.rs:17-22 | inserting several types in turn keeps the map built this way, grows it by one entry per type and hands out one IRI per type |
| RustDeriveParse.InsertAllIris | generators/rust/treeldr-rs-derive/src/parse.rs:17-22 | the IRIs handed out by successive inserts are `rust:/#Type{i}` numbered on from the map's size, one per type |
| RustDeriveParse.TypeIriDistinct | generators/rust/treeldr-rs-derive/src/parse.rs:17-22 | distinct indices give distinct `rust:/#Type{i}` IRIs |
| RustDeriveParse.InsertedIrisDistinct | generators/rust/treeldr-rs-derive/src/parse.rs:17-22 | the IRIs handed out by successive inserts are pairwise distinct and none of them was already in the map |
| RustDeriveParse.Replace | generators/rust/treeldr-rs-derive/src/parse.rs:698-706 | setting a single-valued attribute stores the new value, and fails with `ConflictingValue` exactly when a different value was already set |
| RustDeriveParse.ReplaceAllAgrees | generators/rust/treeldr-rs-derive/src/parse.rs:698-706 | repeating an attribute that already has a value succeeds exactly when every repetition gives the same value, which is then kept |
| RustDeriveParse.FirstValueKept | generators/rust/treeldr-rs-derive/src/parse.rs:698-706 | from an unset attribute, a series of settings succeeds exactly when all values equal the first, which is the one kept |
| RustDeriveParse.GraphValueToOption | generators/rust/treeldr-rs-derive/src/parse.rs:688-696 | `Keep` becomes no value and `None` becomes a value holding no graph |
| RustDeriveParse.GraphValueRoundTrip | generators/rust/treeldr-rs-derive/src/parse.rs:680-696 | the conversion of a graph value to a nested option is a bijection |
| RustDeriveParse.ParsePattern | generators/rust/treeldr-rs-derive/src/parse.rs:902-910 | a blank node identifier parses to a variable named by its label; any other IRI reference parses to an IRI; anything else fails with `InvalidPattern` carrying the text |
| RustDeriveParse.PatternRoundTrip | generators/rust/treeldr-rs-derive/src/parse.rs:902-910 | writing a pattern out and parsing it back gives the same pattern |
| RustDeriveParse.ParseOptComma | generators/rust/treeldr-rs-derive/src/parse.rs:806-812 | an optional comma is found exactly when the next token is a comma, its absence is accepted only at the end of the stream, and any other token is rejected as unexpected |
| RustDeriveParse.ParseComma | generators/rust/treeldr-rs-derive/src/parse.rs:814-820 | a required comma is accepted exactly when the next token is a comma, and the end of the stream is a missing token |
| RustDeriveParse.StringToken | generators/rust/treeldr-rs-derive/src/parse.rs:747-757 | a token is read as a string exactly when it is a string literal, another literal being an unexpected literal |
| RustDeriveParse.StringListRoundTrip | generators/rust/treeldr-rs-derive/src/parse.rs:822-843 | a comma-separated list of string literals parses back to the same strings |
| RustDeriveParse.TrailingCommaAccepted | generators/rust/treeldr-rs-derive/src/parse.rs:822-843 | a trailing comma after a non-empty string list is accepted and changes nothing |
| RustDeriveParse.ExpectStringListArgument | generators/rust/treeldr-rs-derive/src/parse.rs:708-720 | a list argument must be a group: the end of the stream is a missing token, another token is unexpected, and a group yields its parsed string list and the tokens after it |
| RustDeriveParse.ListArgumentReadBack | generators/rust/treeldr-rs-derive/src/parse.rs:822-843 | a group holding a comma-separated list of string literals is read as a list argument giving back exactly those strings, with nothing after it |
| RustDeriveParse.KindFromIdent | generators/rust/treeldr-rs-derive/src/parse.rs:1009-1035 | an identifier names a kind exactly when it is that kind's keyword, and no kind otherwise |
| RustDeriveParse.KindNameRoundTrip | generators/rust/treeldr-rs-derive/src/parse.rs:1009-1035 | every kind's keyword reads back as that kind |
| RustDeriveParse.KindFromData | generators/rust/treeldr-rs-derive/src/parse.rs:1037-1049 | named fields are a record, unnamed fields a tuple, a unit struct a unit and an enum a sum; a union is rejected with `UnionType` and is the only failure |
| RustDeriveParse.ExtractVecItem | generators/rust/treeldr-rs-derive/src/parse.rs:643-678 | the item type extracted from a type is the one that type is `Vec` of, and every other type fails with `ExpectedVec` |
| RustDeriveParse.ExtractVecOf | generators/rust/treeldr-rs-derive/src/parse.rs:643-678 | extracting the item of `Vec<T>` gives `T` |
| RustGenerator.UseModule | generators/rust/generator/src/lib.rs:62-72 | registering an extern module succeeds exactly when no path segment has generic arguments, and then maps the prefix to that path and changes nothing else |
| RustGenerator.DefaultLayoutIdentLeast | generators/rust/generator/src/lib.rs:154-174 | a layout has a default identifier exactly when one of its IRIs gives one, and it is the least of those identifiers in string order |
| RustGenerator.LayoutIdent | generators/rust/generator/src/lib.rs:74-89 | an identifier chosen in the options wins; otherwise the default identifier is used, and its absence fails with `MissingTypeIdentifier` naming the layout |
| RustGenerator.PatternToId | generators/rust/generator/src/lib.rs:176-193 | a variable becomes the blank node whose label is its index in decimal; a resource becomes its first IRI, and a resource without one fails with `NoIriRepresentation` |
| RustGenerator.VarIdsDistinct | generators/rust/generator/src/lib.rs:176-193 | distinct variables become distinct blank nodes |
| RustGenerator.VarIdReadBack | generators/rust/generator/src/lib.rs:176-193 | the derive macro parses the blank node written for variable `i` back as the variable named `i` |
| RustGenerator.IntroAttribute | generators/rust/generator/src/lib.rs:195-199 | the `intro` attribute can be written exactly when `count + offset` fits in 32 bits, and then lists the names `offset` to `count + offset - 1` |
| RustGenerator.NamesDenoteRange | generators/rust/generator/src/lib.rs:195-205 | the generated names are decimal numerals for `offset` to `offset + count - 1` in order, so no two are the same |
| RustGenerator.IntroReadBack | generators/rust/generator/src/lib.rs:195-199 | the derive macro reads the generated `intro` attribute back as exactly the generated names, with nothing left over |
| RustGenerator.InputReadBack | generators/rust/generator/src/lib.rs:201-205 | the derive macro reads the generated `input` attribute back as the names `0` to `count - 1`, the same list as `intro` with offset zero |
| Scopes.Scheme | layouts/src/abs/syntax.rs:163-177 | a reference has a scheme exactly when the text before its first colon is one, and the reference is that scheme, a colon and the rest |
| Scopes.SchemeOfPrefixed | layouts/src/abs/syntax.rs:163-177 | a scheme followed by a colon is recognised as that scheme, whatever follows |
| Scopes.Bind | layouts/src/abs/syntax.rs:273-276 | binding takes the next fresh index, leaves the base and prefixes alone and keeps the scope well-formed |
| Scopes.Variable | layouts/src/abs/syntax.rs:279-284 | a name resolves exactly when it is bound, to an index below the count; otherwise the error names it |
| Scopes.BindThenVariable | layouts/src/abs/syntax.rs:273-284 | a freshly bound name is found at the old count, and every other name keeps its binding |
| Scopes.BindAll | layouts/src/abs/syntax.rs:245-256 | binding a list grows the count by its length and keeps the scope well-formed |
| Scopes.BindAllVariable | layouts/src/abs/syntax.rs:245-256 | after binding a list, each of its names is found at the old count plus the position of its last occurrence, and every other name keeps its binding |
| Scopes.WithoutVariables | layouts/src/abs/syntax.rs:260-267 | clearing the variables leaves no name bound and the count at zero, keeping the base and prefixes |
| Scopes.Resolve | layouts/src/abs/syntax.rs:163-177 | a declared prefix is expanded, any other IRI is kept, a relative reference needs a base; an invalid IRI arises only from an expansion |
| Scopes.ResolvePrefixed | layouts/src/abs/syntax.rs:163-177 | `p:s` with a declared prefix `p` expands to the prefix's IRI followed by `s`, or fails naming that text when it is not an IRI |
| Scopes.ResolveIgnoresVariables | layouts/src/abs/syntax.rs:163-177 | resolution depends only on the base and the prefixes, not on the variables |
| Scopes.FromSeq | layouts/src/abs/syntax.rs:760-767 | a one-element list becomes `One`, any other stays `Many`, and the contents are kept |
| Scopes.FromSlice | layouts/src/abs/syntax.rs:731-767 | converting back and forth is the identity except for a one-element `Many`, which becomes `One` |
| Scopes.IsEmpty | layouts/src/abs/syntax.rs:731-737 | a list is empty exactly when its contents are |
| Scopes.Len | layouts/src/abs/syntax.rs:739-744 | the length is that of the contents |
| Scopes.DefaultInputSpec | layouts/src/abs/syntax.rs:787-796 | the input is default exactly when its contents are `self` alone, whether written as `One` or `Many` |
| Scopes.DeclarePrefixes | layouts/src/abs/syntax.rs:225-230 | every declared prefix and every earlier one is in the result; a failure comes from a declaration that does not resolve |
| Scopes.WithHeader | layouts/src/abs/syntax.rs:218-241 | a header resolves its base in the outer scope, keeps the outer base when it has none, and binds its inputs and intros, growing the count by their number |
| Scopes.WithHeaderVariables | layouts/src/abs/syntax.rs:218-241 | after a header each input and intro name is found at the old count plus the position of its last occurrence in the inputs followed by the intros |
| Scopes.WithIntro | layouts/src/abs/syntax.rs:245-256 | intro names are bound in order, keeping base and prefixes |
| Scopes.FieldObjectIndex | layouts/src/abs/syntax.rs:1665-1692 | the object of a field's property, `inputs + intros`, is the index of the field's first intro in a cleared scope |
| Scopes.CheckVariableName | layouts/src/abs/syntax.rs:535-561 | the scan accepts exactly the names with a digit or `PN_CHARS_U` first and `PN_CHARS` after |
| Scopes.BuildPattern | layouts/src/abs/syntax.rs:956-967 | a variable pattern succeeds exactly when the name is bound, to its index; an IRI pattern is the resolved IRI and fails only when resolution does |
| Scopes.LiteralResource | layouts/src/abs/syntax.rs:1433-1449 | the explicit resource is built when given; otherwise the first input, or an error when there is no input |
| Scopes.LiteralResourceIsFirstInput | layouts/src/abs/syntax.rs:1433-1449 | the default target of a literal layout is the variable its first input is bound to |
| Scopes.FieldProperty | layouts/src/abs/syntax.rs:1674-1692 | a field's property needs an input and an intro, failing with no subject or no object; its subject is the first input |
| Scopes.ItemProperty | layouts/src/abs/syntax.rs:2097-2132 | a list item's property needs a subject from the node and an intro; its object is the index of the item's first intro |
| Simplify.Occurrence | core/src/simplify.rs:219-230 | a quad seen from a blank node keeps its property and is coloured `this` when its object is that node, by another blank node it then records, or by its object value otherwise |
| Simplify.AddOccurrence | core/src/simplify.rs:202-216 | the colour is appended to the occurrences, and a quad referring to another blank node appends it under that colour, other colours unchanged |
| Simplify.GatherMeaning | core/src/simplify.rs:136-150 | gathering records one occurrence per quad, in order, and a colour has blank nodes recorded exactly when some quad of that colour refers to one |
| Simplify.NewSubstitution | core/src/simplify.rs:53-59 | a new substitution holds every shelf item at its old reference and has allocated nothing |
| Simplify.InsertRef | core/src/simplify.rs:61-63 | an inserted reference maps to the given new one, items unchanged |
| Simplify.Allocate | core/src/simplify.rs:65-71 | allocation moves the item to the next new index, empties its old slot, records the mapping and touches no other slot |
| Simplify.AllocateAllMeaning | core/src/simplify.rs:65-71 | allocating distinct references gives them consecutive new indices, each holding the item its reference held, after the earlier new items |
| Simplify.AllocateAllKeeps | core/src/simplify.rs:65-71 | a reference not allocated again keeps its new index |
| Simplify.AssignIds | core/src/simplify.rs:256-262 | every blank node of an equivalence class gets an identifier |
| Simplify.RemapId | core/src/simplify.rs:38-132 | an IRI and an unassigned blank node keep their identifier; an assigned blank node takes its class's |
| Simplify.RemapMerges | core/src/simplify.rs:38-132 | with distinct identifiers per class, two blank nodes are renamed alike exactly when they are equivalent |
| Singles.EmptyHasNoRepresentative | build/src/single.rs:47-50 | a default single has no representative |
| Singles.Insert | build/src/single.rs:80-90 | a new representative is added with its metadata; one already there merges the new metadata into its own; nothing else changes |
| Singles.Replace | build/src/single.rs:92-95 | after a replacement the given representative is the only one, with the given metadata |
| Singles.First | build/src/single.rs:54-56 | the first representative is the least in map order, and there is none exactly when the single is empty |
| Singles.TryUnwrapMeaning | build/src/single.rs:107-116 | unwrapping gives nothing when empty, the one representative when there is one, and otherwise a conflict between the two least representatives with their metadata |
| Singles.SingleEqLaws | build/src/single.rs:306-309 | equality is symmetric, holds of a single with itself exactly when it has a representative, and never of an empty one |
| Singles.SingleEqNotTransitive | build/src/single.rs:306-309 | sharing a representative is not transitive, so this equality is not an equivalence |
| Singles.CmpId | build/src/single.rs:330-335 | identifiers compare in map order, equal exactly when identical |
| Singles.StrippedCmpMeaning | build/src/single.rs:320-335 | the order compares first representatives only: it is antisymmetric, equal exactly when they agree, puts an empty single first, and non-empty singles it finds equal are equal |
| SyntaxIntersection.DefaultCardinality | syntax/src/build/intersection/structure.rs:723-729 | the default cardinality admits every count and reports no bound |
| SyntaxIntersection.MinBound | syntax/src/build/intersection/structure.rs:733-739 | a minimum is reported exactly when it is not zero |
| SyntaxIntersection.MaxBound | syntax/src/build/intersection/structure.rs:741-747 | a maximum is reported exactly when it is not the largest 32-bit count |
| SyntaxIntersection.Insert | syntax/src/build/intersection/structure.rs:749-784 | a restriction contradicting the bounds is refused and changes nothing; otherwise the bounds admit exactly the counts they and the restriction admit |
| SyntaxIntersection.CardinalityIntersection | syntax/src/build/intersection/structure.rs:786-795 | the intersection admits exactly the counts both sides admit, and is absent exactly when no count is |
| SyntaxIntersection.InclusionPreorder | syntax/src/build/intersection/structure.rs:373-381 | field-layout inclusion is reflexive, transitive and antisymmetric |
| SyntaxIntersection.DescIntersection | syntax/src/build/intersection/structure.rs:383-395 | an intersection of field layouts is included in both |
| SyntaxIntersection.DescIntersectionIsMeet | syntax/src/build/intersection/structure.rs:383-395 | any field layout included in both sides is included in their intersection, which then exists |
| SyntaxIntersection.RangeIntersection | syntax/src/build/intersection/structure.rs:678-705 | ranges meet exactly when they share an `all` layout, keeping the common `all` layouts and every `any` layout |
| SyntaxIntersection.RangeIntersectionLaws | syntax/src/build/intersection/structure.rs:678-705 | range intersection is commutative, and idempotent when there is an `all` layout |
| SyntaxIntersection.MatchesLaws | syntax/src/build/intersection/structure.rs:476-484 | matching is symmetric, needs a name or a property, and never pairs fields with different names |
| SyntaxIntersection.LayoutEqLaws | syntax/src/build/intersection.rs:23-29 | layout equality is symmetric and reflexive |
| SyntaxIntersection.LayoutEqNotTransitive | syntax/src/build/intersection.rs:23-29 | layout equality is not transitive, since the shared identifiers may differ |
| SyntaxIntersection.CompressDesc | syntax/src/build/intersection.rs:287-307 | compression follows the alias chain, recording each alias, and stops at a non-alias or a repeated alias; an unknown alias is an error naming it |
| SyntaxIntersection.CompressFollows | syntax/src/build/intersection.rs:287-307 | compression ends where following as many aliases as it records ends |
| SyntaxIntersection.CompressCycle | syntax/src/build/intersection.rs:287-307 | two layouts aliasing each other compress to the first alias, both recorded |
| SyntaxIntersection.Compress | syntax/src/build/intersection.rs:94-101 | a layout with identifiers is unchanged; one without takes those of its alias chain |
| SyntaxIntersection.SharedId | syntax/src/build/intersection.rs:111-122 | the shared identifier is the least identifier both layouts have, and absent exactly when they have none in common |
| SyntaxIntersection.DescMeet | syntax/src/build/intersection.rs:309-362 | `Never` absorbs, enums are left to the enum intersection, structs meet only structs, and other kinds survive only when equal |
| SyntaxIntersection.Intersect | syntax/src/build/intersection.rs:133-171 | after compression a shared identifier makes the result an alias to it known under it alone; otherwise the result has no identifier |
| SyntaxIntersection.SharedIntersectionIsEqual | syntax/src/build/intersection.rs:133-171 | intersecting layouts that share an identifier succeeds and is equal to both |
| SyntaxIntersection.NewLayoutIsAlias | syntax/src/build/intersection.rs:68-74 | a layout for one identifier is an alias to it, not yet known under it |
| SyntaxIntersection.TryFromIter | syntax/src/build/intersection.rs:47-66 | no identifier gives the `Never` layout, and an unknown identifier is an error naming it |
| SyntaxIntersection.ApplyRestrictions | syntax/src/build/intersection.rs:173-187 | no restriction changes nothing; a non-struct rejects restrictions; a struct becomes a struct or `Never`, under no identifier |
| SyntaxParsing.ParseId | syntax/src/parsing.rs:516-536 | an identifier is read exactly when the next token is one or a keyword, a keyword standing for its own name; anything else is an error expecting an identifier |
| SyntaxParsing.TryParseId | syntax/src/parsing.rs:376-394 | nothing is read unless the next token starts an identifier |
| SyntaxParsing.ParseAlias | syntax/src/parsing.rs:965-987 | an alias is a name or a string literal; another identifier is an invalid alias |
| SyntaxParsing.ParsePrefix | syntax/src/parsing.rs:994-1015 | a prefix is a name only; another identifier is an invalid prefix and any other token is unexpected |
| SyntaxParsing.ParseUseIri | syntax/src/parsing.rs:597-629 | the IRI of `use` or `base` is an identifier that is an absolute IRI; any other identifier, a keyword included, is an invalid use IRI |
| SyntaxParsing.ParseBlockRoundTrip | syntax/src/parsing.rs:187-210 | a block printed as its items, comma-separated or comma-terminated, then a closing brace, reads back as those items |
| SyntaxParsing.ParseBlockClose | syntax/src/parsing.rs:187-210 | the closing brace after the list ends the block |
| SyntaxParsing.ParseBlockUnclosed | syntax/src/parsing.rs:187-210 | items followed by neither a comma nor the brace are an error naming that token and expecting either |
| SyntaxParsing.SortSelects | syntax/src/parsing.rs:466-510 | each list of the document holds exactly the items of its kind, in order |
| SyntaxParsing.ParseDocumentSpec | syntax/src/parsing.rs:437-510 | an empty stream is the empty document, and otherwise every item lands in the list of its kind, in order |
| ToRdf.ToRdfList | core/src/to_rdf.rs:90-119 | the items take one fresh cell each, three quads a cell, all about fresh cells; the head is `rdf:nil` exactly when there is no item, otherwise the first item's cell |
| ToRdf.ToRdfListReads | core/src/to_rdf.rs:90-119 | the list written for some items reads back, by `rdf:first`/`rdf:rest`, as those items, whatever other quads surround it |
| ToRdf.EachFresh | core/src/to_rdf.rs:146-190 | each definition gets the next fresh node, in order, and emits only quads about fresh nodes |
| ToRdf.EachFreshOwn | core/src/to_rdf.rs:146-190 | a quad about a definition's node is emitted exactly when that definition emits it |
| ToRdf.ListOfReads | core/src/to_rdf.rs:146-190 | the list a type points to holds exactly the fresh nodes of its definitions, in order |
| ToRdf.CardinalityToRdf | core/src/to_rdf.rs:286-322 | a cardinality is one quad whose property is the OWL min-, max- or exact-cardinality term of its kind, with a positive integer literal |
| ToRdf.CardinalityRoundTrip | core/src/to_rdf.rs:286-322 | a cardinality reads back from the quad it emits |
| ToRdf.BoundRoundTrip | core/src/to_rdf.rs:286-322 | a bound reads back from its positive integer literal |
| ToRdf.PropRestrictionToRdf | core/src/to_rdf.rs:234-259 | a property restriction is an OWL restriction on the property, then the restriction's own quad, all about the restriction's node |
| ToRdf.RestrictionRoundTrip | core/src/to_rdf.rs:234-282 | every property restriction reads back from the quad it emits |
| ToRdf.MembersToRdf | core/src/to_rdf.rs:146-190 | the members of a union or intersection use one fresh cell each, all other quads being about the type |
| ToRdf.MembersRead | core/src/to_rdf.rs:146-190 | the list of a union or intersection holds its members, in order |
| ToRdf.TypeRestrictionToRdf | core/src/to_rdf.rs:194-230 | one restriction is stated on the type itself; several each take a fresh node |
| ToRdf.TypeRestrictionList | core/src/to_rdf.rs:194-230 | with several restrictions the type is the OWL intersection of their fresh nodes |
| ToRdf.TypeRestrictionNodes | core/src/to_rdf.rs:194-230 | each fresh restriction node restricts the property |
| ToRdf.TypeToRdf | core/src/to_rdf.rs:122-142 | every type is first an RDFS class, and an empty or plain type is nothing more |
| ToRdf.TypeToRdfMeaning | core/src/to_rdf.rs:122-230 | a union or intersection type points to the list of its members, a type with several restrictions to the list of their nodes, and one restriction follows the class quad directly |
| ToRdf.PropertyToRdf | core/src/to_rdf.rs:326-372 | a property is an RDF property with exactly its domains and range, `schema:valueRequired` exactly when required and `schema:multipleValues` exactly when not functional |
| ToRdf.DocToRdf | core/src/to_rdf.rs:78-87 | one `rdfs:comment` quad per block, about the node |
| ToRdf.DocRoundTrip | core/src/to_rdf.rs:78-87 | the comments written for the blocks read back as the blocks, in order |
| ToRdf.LiteralToRdf | core/src/to_rdf.rs:513-528 | a singleton expression is written as `tldr:singleton` and any other as `tldr:matches` |
| ToRdf.LiteralOfString | core/src/to_rdf.rs:513-528 | a string literal's expression is written back as that string |
| ToRdf.FieldToRdf | core/src/to_rdf.rs:556-615 | a field is a `tldr:Field` with its layout and name, its property exactly when it has one, `valueRequired` exactly when required, and its label exactly when it has one |
| ToRdf.FieldComments | core/src/to_rdf.rs:556-615 | the comments of a field are exactly its documentation |
| ToRdf.VariantToRdf | core/src/to_rdf.rs:643-686 | a variant is a `tldr:Variant` with its name, its layout exactly when it has one and its label exactly when it has one |
| ToRdf.VariantComments | core/src/to_rdf.rs:643-686 | the comments of a variant are exactly its documentation |
| ToRdf.PrimitiveToRdf | core/src/to_rdf.rs:497-509 | a primitive layout emits nothing when it is the primitive's own term, and otherwise is an alias of it |
| ToRdf.LayoutHead | core/src/to_rdf.rs:376-432 | every layout is a `tldr:Layout`, for its type exactly when it has one, named exactly when it has a name |
| ToRdf.LayoutToRdf | core/src/to_rdf.rs:376-432 | a layout's quads begin with its head and are about the layout or fresh nodes |
| ToRdf.StructLayoutMeaning | core/src/to_rdf.rs:532-552 | a structure points to the list of its fields' fresh nodes, each carrying its field's name |
| ToRdf.EnumLayoutMeaning | core/src/to_rdf.rs:619-639 | an enumeration points to the list of its variants' fresh nodes |
| ToRdf.NodeQuads | core/src/to_rdf.rs:39-74 | the quads of a node carry its label and the typing quad of each definition it has |
| ToRdf.ModelToRdf | core/src/to_rdf.rs:39-74 | every quad is about a written node or a fresh blank node |
| ToRdf.ModelIgnoresStandard | core/src/to_rdf.rs:30-74 | when the standard vocabulary is ignored, no quad is about one of its terms |
| ToRdf.ModelLabels | core/src/to_rdf.rs:39-74 | every written node carries its label |
| Types.Reverse | src/ty/mod.rs:411-418 | the converse comparison is equal exactly when the original is, and otherwise flips it |
| Types.RefineCmp | src/ty/mod.rs:411-418 | refining `Equal` gives the new comparison, refining by `Equal` keeps the old one, and a strict comparison survives only an agreeing one |
| Types.RefineAllMeaning | src/ty/mod.rs:411-418 | refining from `Equal` through several comparisons is equal when all are, strict when all agree with one strict comparison that occurs, and otherwise incomparable |
| Types.BooleanCmpIsInclusion | src/ty/mod.rs:436-454 | the boolean comparison is inclusion of the booleans each type holds: the unconstrained type is above a constant, and different constants are incomparable |
| Types.ResourceCmpSound | src/ty/mod.rs:140-164 | a resource type compared above another holds all its resources, and restricted types compare exactly by inclusion of their sets |
| Types.NumberSingleton | src/ty/mod.rs:531-543 | the singleton type admits its number, and its domain is the integers exactly when the number is one |
| Types.NumberAsSingleton | src/ty/mod.rs:545-550 | the number a type stands for is the only one it admits |
| Types.SingletonRoundTrip | src/ty/mod.rs:531-550 | a singleton type gives its number back |
| Types.NormalizeMinAsWritten | src/ty/mod.rs:482-488 | the lower-bound normalisation as written: an exclusive bound in the integer domain becomes the inclusive bound one above it |
| Types.NormalizeLosesIntegers | src/ty/mod.rs:482-488 | as written, `> 1/2` over the integers becomes `>= 3/2`, which no longer admits 1 |
| Types.NormalizeMin | src/ty/mod.rs:482-488 | in the integer domain a lower bound becomes inclusive and admits exactly the same integers |
| Types.NormalizeMax | src/ty/mod.rs:500-506 | in the integer domain an upper bound becomes inclusive and admits exactly the same integers |
| Types.NormalizeAgreesOnIntegers | src/ty/mod.rs:482-506 | for integer bounds the normalisation as written is the intended one |
| Types.BoundsCmp | src/ty/mod.rs:552-616 | number types compare above when their lower bound is looser, their upper bound looser and their domain wider, and equal only when all agree |
| Types.NumberCmpAsWrittenUnsound | src/ty/mod.rs:552-616 | as written, `x > 1` compares above `x >= 1` although only the latter admits 1 |
| Types.NumberCmpAsWrittenAgrees | src/ty/mod.rs:552-616 | with bounds of the same kinds, the comparison as written is the one by what the bounds admit |
| Types.NumberCmpSound | src/ty/mod.rs:552-616 | a number type compared above or equal admits every number the other admits, and conversely |
| Types.NumberCmpExclusive | src/ty/mod.rs:552-616 | compared by what they admit, `x > 1` is below `x >= 1` |
| Types.TextAsSingleton | src/ty/mod.rs:699-703 | a text type's singleton is the only string it accepts |
| Types.TextCmpAsWrittenUnsound | src/ty/mod.rs:714-739 | as written, the singleton `"x"` compares below a language that does not accept it |
| Types.TextCmpAsWrittenAgrees | src/ty/mod.rs:714-739 | except when a singleton meets a non-singleton, the comparison as written agrees with the corrected one, which still compares two non-singletons as automata |
| Types.TextCmpStructural | src/ty/mod.rs:730-735 | two different automata accepting the same language are incomparable, although each accepts every string of the other |
| Types.TextCmpSound | src/ty/mod.rs:714-739 | text types compare consistently with inclusion of the languages they accept |
| Types.LiteralCmp | src/ty/mod.rs:40-49 | literal types of different kinds are incomparable |
| Types.LiteralCmpSound | src/ty/mod.rs:29-49 | literal types compare consistently with what they hold, given bounds of the same kinds and no singleton against a non-singleton text |
| Types.ItemType | src/ty/mod.rs:341-347 | the item type at an index is the prefix's there, and the rest's beyond it |
| Types.MaxLen | src/ty/mod.rs:353-359 | a list has a maximum length exactly when it has no rest type, and it is the prefix length, past which no index has a type |
| Types.AsUniform | src/ty/mod.rs:361-367 | a uniform list gives every index the same item type |
| Types.ListCmpIsRefineAll | src/ty/mod.rs:371-400 | two lists compare as every position's item comparison, then the rests', refined in turn |
| Types.FirstKeyMatch | src/ty/mod.rs:197-222 | the key match is the first candidate whose key the key is a subtype of, and none when no candidate fits |
| Types.AnyIsTop | src/ty/mod.rs:102-115 | `Any` is above every other type and equal to itself |
| Types.EnumSelfIncomparable | src/ty/mod.rs:267-307 | an enum whose variants are pairwise incomparable is not comparable with itself, since every pair of variants is compared |
| Types.ListContainsMeaning | src/ty/mod.rs:402-408 | a list type holds a list exactly when it is at least the prefix long and each item lies in the item type at its index |
| Types.EnumContainsMeaning | src/ty/mod.rs:309-311 | an enum holds exactly the values one of its variants holds |
| Types.FirstKeyHolder | src/ty/mod.rs:224-242 | the field chosen for an entry is the first remaining one whose key type holds the key |
| Types.StructValueIgnored | src/ty/mod.rs:224-242 | as written, a struct whose one field is a required unit accepts that field holding a boolean |
| Types.StructContainsAsWrittenKeys | src/ty/mod.rs:224-242 | as written, every key of an accepted map is held by the key type of some field |
| Types.StructContainsSound | src/ty/mod.rs:224-242 | every entry of an accepted map is held by some field, its key by the field's key type and its value by the field's type |
| Types.StructContainsWritten | src/ty/mod.rs:224-242 | whatever the corrected membership accepts, the one as written accepts too |
| Types.SubfieldMeaning | src/ty/mod.rs:255-258 | a field is a subfield of another exactly when its type is below or equal and it is required when the other is |
| Unify.StripBlank | build/src/context/build/unify.rs:74-88 | erasing blank nodes keeps every non-blank value and turns exactly the blank ones into the erased blank |
| Unify.ColorValue | build/src/context/build/unify.rs:90-104 | colouring replaces a blank node by its colour, fails exactly on a blank node with no colour, and passes other values through |
| Unify.ColorThenStrip | build/src/context/build/unify.rs:74-104 | colouring keeps the shape of a value: erasing the coloured value's blanks gives the value with its blanks erased |
| Unify.StripBinding | build/src/context/build/unify.rs:32-37 | an erased binding keeps its property and erases its value |
| Unify.ColorBinding | build/src/context/build/unify.rs:41-46 | a coloured binding keeps its property, colours its value, and fails exactly when the value cannot be coloured |
| Unify.StripBindingMeaning | build/src/context/build/unify.rs:32-37 | two bindings agree once erased exactly when they have the same property and the same value up to which blank node it is |
| Unify.PropertyColor | build/src/context/build/unify.rs:154-159 | a property blank node gets an exact colour whose only member is that property |
| Unify.ExactColor | build/src/context/build/unify.rs:162-167 | a new exact colour has no member |
| Unify.RecursiveColor | build/src/context/build/unify.rs:170-175 | a new recursive colour is not exact and has no member |
| Unify.EquivalencesEqUnknown | build/src/context/build/unify.rs:358-366 | a blank node without a class is equivalent to nothing |
| Unify.ChildEnvironmentMeaning | build/src/context/build/unify.rs:474-500 | a candidate pairing is discarded exactly when two paired blank nodes have different colours; otherwise the stack is kept and a goal is added for exactly the pairs not yet equivalent |
| Unify.IncrMeaning | build/src/context/build/unify.rs:526-538 | the odometer keeps digits of the base, goes on exactly when some digit is below its maximum, and when it stops every digit is 0 |
| Unify.IncrValue | build/src/context/build/unify.rs:526-538 | the odometer adds one to the number the digits write, and stops only after the largest number of that length |
| UnionFinds.Empty | core/src/utils/union_find.rs:13-25 | a new structure is well-formed and knows no key |
| UnionFinds.ClassOf | core/src/utils/union_find.rs:103-105 | a key has a class exactly when it is known |
| UnionFinds.Insert | core/src/utils/union_find.rs:29-34 | inserting an unknown key adds exactly that key |
| UnionFinds.InsertMeaning | core/src/utils/union_find.rs:29-34 | a new key is equivalent to itself only, and every other equivalence stays as it was |
| UnionFinds.Merge | core/src/utils/union_find.rs:36-48 | merging two known keys keeps the known keys and the class count |
| UnionFinds.MergeMeaning | core/src/utils/union_find.rs:36-48 | after a merge the two keys are equivalent, and two keys are equivalent exactly when they were or each was equivalent to one of the merged keys |
| UnionFinds.EqLaws | core/src/simplify.rs:242-250 | equivalence relates known keys only and is reflexive, symmetric and transitive on them |
| Values.FromInteger | layouts/src/value/mod.rs:149-152 | an integer converts to a number in lowest terms denoting it |
| Values.AsInteger | layouts/src/value/mod.rs:42-48 | a number gives an integer exactly when it is one, and that integer denotes it |
| Values.IntegerIffDivides | layouts/src/value/mod.rs:38-40 | a number in lowest terms is an integer exactly when its denominator divides its numerator |
| Values.AsIntegerRoundTrip | layouts/src/value/mod.rs:38-48 | an integer converted to a number converts back, and an integral number is the conversion of its integer |
| Values.Reduce | layouts/src/value/mod.rs:134-137 | a fraction is stored in lowest terms with a positive denominator, denoting the same rational |
| Values.IntToString | layouts/src/value/mod.rs:88-125 | an integer is written as its digits, after a minus sign when negative |
| Values.TruncDiv | layouts/src/value/mod.rs:88-125 | big-integer division rounds toward zero |
| Values.Expand | layouts/src/value/mod.rs:88-125 | long division yields digits and a final remainder such that the remainder times the power of ten is the digits' value times the denominator plus what is left |
| Values.DecimalAsWritten | layouts/src/value/mod.rs:88-125 | the decimal representation as written, which prints the integer part with its own sign |
| Values.NegativeDoubleSign | layouts/src/value/mod.rs:108-114 | as written, -3/2 is represented as `--1.5`, which is not a JSON number |
| Values.AsWrittenAgrees | layouts/src/value/mod.rs:88-125 | for non-negative numbers and negative ones above -1 the representation as written is the intended one |
| Values.AsWrittenDoubleSign | layouts/src/value/mod.rs:108-114 | as written, every representable number at most -1 begins with two minus signs |
| Values.Decimal | layouts/src/value/mod.rs:88-125 | a number has a representation exactly when its long division terminates |
| Values.DecimalIsJsonNumber | layouts/src/value/mod.rs:88-125 | every decimal representation is a JSON number |
| Values.DecimalRoundTrip | layouts/src/value/mod.rs:88-125 | a decimal representation read back as `m / 10^k` denotes the number it came from |
| Values.NegativeIsSigned | layouts/src/value/mod.rs:88-125 | a negative number's representation is a minus sign before its magnitude's |
| Values.DecimalTerminating | layouts/src/value/mod.rs:684-701 | 1, 1/2, 1/4, 1/5 and 1/8 are written `1`, `0.5`, `0.25`, `0.2` and `0.125` |
| Values.DecimalRepeating | layouts/src/value/mod.rs:684-701 | 1/3, 1/6, 1/7 and 1/9 have no representation |
| Values.UnitRepeats | layouts/src/value/mod.rs:88-125 | a unit fraction whose long division ends on a nonzero remainder has no representation |
| Values.DefaultValue | layouts/src/value/mod.rs:333-336 | the default value is unit |
| Values.UnitIsDefault | layouts/src/value/mod.rs:309-318 | the unit value is the only unit value |
| Values.TypeOf | layouts/src/value/mod.rs:650-658 | a typed value has a layout except under the top layout |
| Values.LiteralIntoUntyped | layouts/src/value/mod.rs:605-614 | stripping a literal's type keeps a literal, an identifier becoming a text string |
| Values.IntoUntyped | layouts/src/value/mod.rs:661-675 | stripping types keeps map keys in order and list lengths, and a top-layout value as it is |
| Values.VariantsErased | layouts/src/value/mod.rs:661-675 | variant wrappers, however nested, do not show in the untyped value |
| Values.AlwaysRoundTrip | layouts/src/value/mod.rs:661-675 | a value of the top layout is unchanged and has no layout |
| Values.NumberToJson | layouts/src/value/mod.rs:229-237 | a number has a JSON form exactly when its long division terminates, and that form denotes the number |
| Values.NumberToJsonAsWritten | layouts/src/value/mod.rs:229-237 | as written, a number has a JSON form exactly when it is terminating and above -1, where it agrees with the corrected conversion |
| Values.NegativeNumberRejected | layouts/src/value/mod.rs:108-114 | as written, -3/2 has no JSON form although `-1.5` denotes it |
| Values.LiteralToJson | layouts/src/value/mod.rs:470-481 | a byte string has no JSON form, a number one exactly when its representation as written is a JSON number, and every other literal converts |
| Values.Collect | layouts/src/value/mod.rs:516-539 | the conversions of a list succeed exactly when each does, in order, and otherwise fail with the first failure |
| Values.EntryToJson | layouts/src/value/mod.rs:516-539 | a map entry needs a text-string key, failing with that key otherwise |
| Values.ToJsonCompatible | layouts/src/value/mod.rs:516-539 | a value converts to JSON exactly when it is JSON compatible |
| Values.NonStringKeyFails | layouts/src/value/mod.rs:516-539 | a map whose first offending entry has a non-string key fails naming it |
| Values.TypedLiteralAgrees | layouts/src/value/mod.rs:498-510 | converting a typed literal is stripping its type and converting the value |
| Values.FromJson | layouts/src/value/mod.rs:378-392 | a JSON value converts to a well-formed value |
| Values.JsonRoundTrip | layouts/src/value/mod.rs:378-392 | a JSON-compatible value converted to JSON and back is the same value, up to how its numbers are written |

## Left out

- Automata.Determinize: labels the deterministic transitions one character at a time, where layouts/src/utils/automaton.rs:104-151 uses character ranges. The automata accept the same words. But `Automata.Len` and `Automata.SingleTransitionOf` count one transition per character, so a source transition on `'a'..='z'` counts 26 times here.
- JsonLdContext.Build: does not model the error that `term_definition.build(self)?` can raise (modules/json-ld-context/src/lib.rs:350). Building a term definition needs the JSON-LD processing crate, which is not part of this model, so every definition is treated as already built.
- FieldLayout.FieldName: returns `None` where syntax/src/build/layout.rs:416-435 panics through `expect` on a field without a name.
- Lexing and LegacyLexing: read errors of the underlying character stream are not modelled. The input is a sequence of characters that is always readable.
- LegacyBuild: `Scope` indices are `u32` in src/syntax/build.rs. The model uses unbounded naturals, so the overflow panic past 2^32 - 1 variables is not modelled.
- Values.JsonRoundTrip: holds only for values whose numbers have a JSON form, as `Values.ToJsonCompatible` states. Numbers are compared by the rational they denote, not by their spelling.
- Hydrate: hydrating a sum layout is `todo!()` in layouts/src/distill/hy/mod.rs:226-315 for the ambiguous and no-variant cases, so it is not modelled.
- Dehydrate and Hydrate: the choice of fresh blank nodes and the interpretation of resources are parameters.
- Dehydrate.Bind: states the resulting environment's resource sequence rather than a lookup per index.
- Dehydrate.Intro: states the resulting environment's resource sequence rather than a lookup per index.
- Dehydrate and Hydrate: the matching of patterns against a dataset is reduced to a sequence of substitutions. Building those substitutions is not part of this model.
- JsonSchemaGen.GenerateSetType: returns a `Failure` where modules/json-schema/src/lib.rs panics.
- JsonSchemaImport.KindOfType: the JSON Schema type `null` is a `todo!()` panic in the source. It is modelled as an error.
- LegacyBuild.Begin: gives every variable of a block the same type pattern. Type patterns are not otherwise modelled.
- LexiconPrimitives.RdfList: `build_rdf_list` is defined in modules/lexicon/src/import.rs, which is not part of this model. It is taken to draw one fresh node per item, in order. The item nodes of a restriction list are drawn before the list's own nodes, so only the names of blank nodes could differ from the source.
- Ids and Json: identifiers and JSON values come from external crates. Only the parts used here are modelled, as plain datatypes.
- Ids.IdLe: the derived `Ord` of the external `Id` type is not part of this model. The model assumes that every IRI orders before every blank node, and that IRIs among themselves and blank nodes among themselves order by index. `ClassHierarchy.NewHierarchySelfLoop` names "the first such class in context order" under this assumed order, that of the `BTreeMap<Id, …>` of build/src/context.rs:33.
- JsonSchemaValidation.IsPrimitiveMeaning: follows the code of `Validation::is_primitive`, not the wording of its doc comment.
- PrimitiveRestrictions: `build_unsigned_integer`, `build_float` and `build_double` are not modelled. Integer bounds that do not fit in an `i64` are a `todo!()` in the source and are not modelled.
- PrimitiveRestrictions.InsertMin: follows core/src/layout/primitive/restriction/template/float.rs. The integer template of the core crate is not part of this model.
- PrimitiveRestrictions.InsertMax: follows core/src/layout/primitive/restriction/template/float.rs. The integer template of the core crate is not part of this model.
- RegExps: the `Display` implementation is not modelled. Building an automaton from an expression (`build`, `build_into`, `build_repeat_into`) is not modelled.
- RegExps: the `eprintln` diagnostics of core/src/layout/literal/regexp.rs are not modelled. Otherwise that file behaves like the later copy the module follows.
- Simplify: the colour-refinement solver (`Solver`, `Stack`) is not modelled. The equivalences it produces are a parameter.
- ToRdf.TypeRestrictionToRdf: requires at least one restriction, where the source panics on an empty list.
- ToRdf.LayoutToRdf: excludes the `Never` layout, which is `todo!()` in core/src/to_rdf.rs.
- ToRdf.NodeToRdf: requires the node to be emittable. The source panics on the other nodes.
- Scopes: resolving an IRI against a base and deciding IRI validity are the `Iris` parameter.
- Parsing, SyntaxParsing, CoreParsing and LegacyParsing: parse over a token stream, so lexer errors are not modelled.
- LegacyLexing: the legacy annotation keywords (src/syntax/mod.rs is not part of this model) are taken to be those of the syntax crate.
- Unify and Simplify: the `take_first` utility is not part of this model. It is taken to remove and return the first matching element.
- Types: `contains` for numbers and texts is `true` in src/ty/mod.rs, and is modelled as such.
- Types.TextCmpAsWrittenAgrees: `TextType` models an automaton by the language it accepts, all text or a finite set of words, plus an opaque `shape`; an infinite language other than all text (a pattern such as `[a-z]+`) is not representable, and `TextCmpAsWritten` and `TextCmp` compare two non-singletons as values, as src/ty/mod.rs:730-735 compares the automata, so neither is complete with respect to language inclusion (`Types.TextCmpStructural`).
- CoreRestrictions: metadata attached to restrictions is not modelled.
- CoreParsing: the lexer of the core crate is not part of this model.
- Metadata and source locations: these are carried through by the source but dropped by every module of this model.
- RustGenLayout.DescImplDefault: takes a recursion-depth `fuel` and answers `None` when it runs out. The source recursion in modules/rust/gen/src/lib.rs:324-338 and 510-513 has no such bound and does not terminate on a cycle of aliases or required fields. `RustGenLayout.DescImplDefaultMonotone` shows that the answer does not depend on the depth once there is one.
- RustGenPath and RustGenLayout: every module and layout reference must be defined. The source's `expect` and `unwrap` calls panic otherwise. `AddModule` and `AddLayout` return `None` for an undefined parent instead.
- RustGenLayout: `Description::new`, which derives a description from a TreeLDR layout definition, is not modelled. Descriptions are inputs.
- RustGenerator.IntroAttribute: returns `None` when `count + offset` overflows `u32`, where a debug build panics. A release build would wrap and emit a shorter or empty list.
- RustDeriveParse.ParsePattern: the grammars of blank node labels and IRI references come from external crates and are the `validLabel` and `isIriRef` parameters.
- RustGenerator.DefaultLayoutIdent: `ident_from_iri` (the `utils` module of generators/rust/generator is not part of this model) is the `identOf` parameter, and the IRIs of a resource are the `iris` input.
- RustDeriveParse: `TypeAttributes::parse` and the other attribute parsers are modelled only as far as single assignment (`replace`) and string-list arguments go. `quad_token`, `parse_graph_value`, `parse_binding_list` and the pattern and quad list arguments are not modelled.
- RustSyn: `syn` and `proc_macro2` token trees and types are reduced to the shapes these modules inspect. Spans are dropped.
- Rust code generation: the `quote!` token emission of the `Generate` implementations and `generate` in generators/rust/generator/src/lib.rs is not modelled, and neither are their token-generation errors other than `UnreachableType`. The same goes for the alias, enum and trait-object definitions of modules/rust/gen/src/syntax/ty.rs.

## Findings

| source | as written | input that shows it | evidently intended | confidence | as-written member | corrected member |
|---|---|---|---|---|---|---|
| layouts/src/value/mod.rs:108-114 | the integer part of a negative number is printed with its own sign after a leading `-` | -3/2 gives `--1.5`, so `TryFrom<Number>` rejects it | `-1.5` | high, not executed | Values.DecimalAsWritten, Values.NegativeDoubleSign, Values.NumberToJsonAsWritten, Values.NegativeNumberRejected | Values.Decimal, Values.DecimalIsJsonNumber, Values.DecimalRoundTrip, Values.NumberToJson |
| syntax/src/build-old.rs:537-557 | `take()` empties the declared-base slot after a matching declaration | bases `a`, `a`, `b` are accepted with base `b` | every base must equal the first; `b` is a mismatch | high, not executed | OldBuild.CheckBasesAsWritten, OldBuild.SameBaseTwiceThenOther | OldBuild.CheckBases, OldBuild.CheckBasesFrom |
| modules/json-schema/src/import.rs:110-127 | `refine` has no case for a string kind refined by a string kind | `{"type": "string", "format": "date"}` fails with an unsupported type | a string refined by a string stays a string | medium, not executed | JsonSchemaImport.RefineAsWritten, JsonSchemaImport.StringRefineFails | JsonSchemaImport.Refine, JsonSchemaImport.RefineLaws |
| modules/json-schema/src/schema/from_syntax.rs:193 | the alternative of a conditional is read from the key `els` | `{"if": true, "else": false}` loses its `else` | the JSON Schema keyword `else` | high, not executed | JsonSchemaSyntax.ReadDescriptionAsWritten, JsonSchemaSyntax.ElseIsLost | JsonSchemaSyntax.ReadDescriptionWith, JsonSchemaSyntax.ElseIsRead |
| modules/json-schema/src/lib.rs:725 | the boolean primitive is exported with type `bool` | the boolean layout's schema fails to read back as JSON Schema | type `boolean` | high, not executed | JsonSchemaGen.GeneratePrimitiveTypeAsWritten, JsonSchemaGen.BooleanSchemaUnreadable | JsonSchemaGen.GeneratePrimitiveType, JsonSchemaGen.PrimitiveTypeReadsBack |
| src/ty/mod.rs:552-616 | number bounds are compared by the derived order of their variants | `x > 1` compares greater than `x >= 1`, which admits more | bounds compared by the numbers they admit | high, not executed | Types.NumberCmpAsWritten, Types.NumberCmpAsWrittenUnsound | Types.NumberCmp, Types.NumberCmpSound |
| src/ty/mod.rs:726 | the (singleton, language) case tests the singleton against its own automaton | the word `x` compares less than the language {`y`, `z`} | test the singleton against the other language | high, not executed | Types.TextCmpAsWritten, Types.TextCmpAsWrittenUnsound | Types.TextCmp, Types.TextCmpSound |
| src/ty/mod.rs:224-243 | `Struct::contains` matches keys and never checks the values | a struct whose required field is unit accepts a boolean there | each entry's value is checked against its field type | medium, not executed | Types.StructContainsAsWritten, Types.StructValueIgnored | Types.StructContains, Types.StructContainsSound |
| src/ty/mod.rs:482-507 | an exclusive bound is normalised for integers by adding one, even when it is not an integer | the exclusive bound 1/2 becomes the inclusive bound 3/2, which loses the integer 1 | the next integer above the bound | medium, not executed | Types.NormalizeMinAsWritten, Types.NormalizeLosesIntegers | Types.NormalizeMin, Types.NormalizeAgreesOnIntegers |
| core/src/ty/restriction.rs:395-440 | `restrict` with a minimum or maximum overwrites the current bound | "at least 3" then "at least 1" admits two values | keep the tighter bound | medium, not executed | CoreRestrictions.RestrictAsWritten, CoreRestrictions.RestrictForgetsMin | CoreRestrictions.Restrict |
| modules/json-ld-context/src/lib.rs:133-154 | the parent context is consulted before the builder's own binding | a builder that binds `name` to 1 accepts `name` as 2 because its parent has 2 | a conflicting local binding is reported | medium, not executed | JsonLdContext.Insert, JsonLdContext.InsertHidesConflict | JsonLdContext.InsertChecked, JsonLdContext.InsertCheckedAgrees |
| src/syntax/build.rs:108-113 | `insert` never increments `count` | in a block with variables `x` and `y`, both resolve to the same index | each variable gets its own index | high, not executed | LegacyBuild.Insert, LegacyBuild.SecondVariableResolvesToFirst | LegacyBuild.InsertCounted, LegacyBuild.BeginCountedResolves |
| build/src/syntax.rs:156-159 | `bind` takes the map's size as the new index, even when re-binding | binding `a`, `b`, `a`, `c` gives `a` and `c` the index 2 | indices are never shared | medium, not executed | BuildScopes.Bind, BuildScopes.RebindCollides | Scopes.Bind |
| layouts/src/distill/hy/mod.rs:451 | the ordered-list walk loops `while head != tail` without remembering the nodes it has visited | a node whose `rdf:rest` is itself never ends | a cyclic list is an error | medium, not executed | Hydrate.WalkAsWritten, Hydrate.SelfLoopNeverEnds | Hydrate.Walk, Hydrate.WalkAgrees |
| build/src/layout/intersection.rs:264 | an array meets an alias instead of another array | an array intersected with itself is `Never` | an array meets an array | high, not executed | BuildIntersection.IntersectWithAsWritten, BuildIntersection.ArrayMeetsAlias | BuildIntersection.IntersectWith, BuildIntersection.IntersectWithMeaning |
