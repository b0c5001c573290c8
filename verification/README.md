# tstree-json-schema: the declaration-to-schema translator

`generate.ts` reads the TypeScript declaration file that describes the
typescript-eslint syntax tree. It turns every interface, enum and type alias
reachable from four seed names into a JSON Schema definition and writes one
JSON Schema document. This project models that core as pure Dafny functions
and two methods, `Resolver.Resolve` and `Generator.Generate`, and proves what each step promises.

The model has these parts:

- **The declaration table** (`DeclarationTable`). Top-level interface, enum and
  type-alias statements are indexed by name. Other statements are skipped. A
  later declaration of a name replaces an earlier one.
- **`valueOf`** (`Values`). The string-literal property values of an interface
  and of its chain of enclosing interface declarations. Duplicates are removed,
  keeping the first occurrence.
- **`requestType`** (`Worklist`). Requesting a name pushes it onto the pending
  stack unless it is already defined or already pending. It always returns
  `{"$ref": "#/definitions/<name>"}`. `PushAll` requests a list of names one
  after the other.
- **`declToDef`** (`Translator`, with its laws in `TranslatorLaws`). The
  recursive translation of a type node, or of an interface declaration, into a
  schema fragment. It covers arrays and unions, where `RegExp`, `RegExpLiteral`
  and `BigIntLiteral` alternatives are dropped. It covers literals, heritage
  entries, qualified references into `AST_NODE_TYPES` / `AST_TOKEN_TYPES`, the
  `ValueOf<T>` form and plain references. It covers inline object shapes, where
  a `[SyntaxKind.X]` key becomes `X`, and interfaces. Marker bases are dropped
  and the remaining bases go into an `allOf` before the interface's own shape.
  It also covers parentheses, primitive keywords and the placeholder reference
  for anything else. Each fatal `throw` is a `Failure` carrying the same
  message, the unsupported literal's text included.
- **The resolution loop** (`Resolver`). It pops the last pending name. A name
  without a declaration is reported as missing. A declared name gets the
  definition of its declaration stored, and its requests are pushed. The first
  failing definition aborts the run. The invariant records the order in which
  names were first defined; each of them is a seed or is requested by a name
  defined before it, so nothing is stored that the seeds do not reach.
- **Assembly** (`Ordering`, `Assembler`, `Generator`). `Program` is taken out
  of the definitions and becomes the root of the document. The remaining
  definitions are sorted by name under `definitions`, next to the `$schema`
  URI.

The translation threads only the pending stack. The definitions map is written
by the loop alone, so the translator sees it as a read-only set of defined
names. The names a translation requests are given by the reference function
`Requests`. Every translator function's contract says that the new pending
stack is `PushAll` of those requests. The `*Independent` lemmas prove that the
schema fragment produced does not depend on the worklist state. So every law
is stated over `FragmentOf`, the translation against an empty worklist, and
the loop invariant can say that every stored definition is the definition of
its declaration.

The loop terminates on every input. Its measure is a triple, compared in order:

1. the number of declared names not yet defined;
2. the number of pending names that are already defined;
3. the length of the pending stack.

The measure is needed because a name can be pushed again after it was popped.
A declaration that refers to itself re-queues its own name while it is being
translated. A missing name is pushed again by the next request made after it was popped.

Three behaviours of the code are easy to misread; the model follows the code:

- `valueOf` follows `decl.parent`, the syntactic parent node, not the
  `extends` list. The model gives each interface an optional enclosing
  declaration (`parent`) and follows that chain.
- A name is not pushed "at most once". A self-referencing declaration is
  translated twice. Both translations store the same definition, as
  `Resolver.DefinedByDeclaration` shows. A missing name can be reported more
  than once.
- A numeric literal's `enum` holds the literal's `text` as a string, as the
  code writes it.

## Model

| member | source | states |
|---|---|---|
| DeclarationTable.BuildTable | generate.ts:19-30 | every key holds a declaration of that very name |
| DeclarationTable.TableHasEveryName | generate.ts:19-30 | every interface, enum or alias statement's name is a key of the table |
| DeclarationTable.TableHoldsLast | generate.ts:19-30 | every key holds the declaration of the last statement declaring that name, and nothing undeclared is a key |
| Lists.DedupInto | generate.ts:33-48 | `new Set` order: the accumulator is kept as a prefix, the result is duplicate-free, and it holds exactly the accumulated and the new values |
| Lists.Dedup | generate.ts:33-48 | the result is duplicate-free and has exactly the input's values |
| Lists.DedupIntoAppend | generate.ts:33-48 | de-duplicating `a + b` is de-duplicating `a`, then `b` |
| Lists.DedupIntoDistinct | generate.ts:33-48 | de-duplicating values that are already distinct appends them unchanged |
| Lists.DedupPrefix | generate.ts:33-48 | the de-duplicated values of a prefix are a prefix of the whole's |
| Values.OwnValues | generate.ts:39-45 | a value is listed exactly when some member is a property signature typed by that string literal |
| Values.Chain | generate.ts:35-37 | the chain holds interfaces only and ends with the declaration itself; each element is the `parent` of the next, and the first has no interface parent |
| Values.ValueOf | generate.ts:32-49 | duplicate-free, and a value is present exactly when some interface of the chain assigns it |
| Values.ParentValuesFirst | generate.ts:33-46 | the parent's values come first, in their own order |
| JsonSchema.StringEnum | generate.ts:290-294 | a string primitive whose enum lists exactly the given strings, in order |
| Worklist.Request | generate.ts:59-71 | the result is a reference to the name; the name is pushed only if neither defined nor pending, and afterwards it is defined or pending |
| Worklist.PushAll | generate.ts:59-71 | requesting several names only appends new, distinct, undefined names; each name ends up defined or pending; nothing unrequested is added |
| Worklist.PushOne | generate.ts:59-71 | requesting a one-name list is one `requestType` call |
| Worklist.PushAllAppend | generate.ts:59-71 | requesting `a + b` is requesting `a`, then `b` |
| Worklist.AppendsTransitive | generate.ts:62-66 | two append-only request steps compose into one |
| Worklist.AppendsKeepsDistinct | generate.ts:62-66 | a pending stack without duplicates keeps none after requests |
| Translator.WithoutTexts | generate.ts:86-95 | filtering by text keeps exactly the nodes whose text is not excluded |
| Translator.WithoutTextsAppend | generate.ts:86-95 | filtering keeps the order: filtering `a + b` is filtering `a`, then `b` |
| Translator.WithoutTextsLength | generate.ts:86-95 | filtering removes exactly the counted excluded nodes |
| Translator.HeritageTypes | generate.ts:208 | the flattened heritage entries are exactly the entries of some clause |
| Translator.HeritageTypesAppend | generate.ts:208 | flattening keeps clause order: the entries of `c1 + c2` are those of `c1`, then those of `c2` |
| Translator.InheritedTypes | generate.ts:208-218 | the bases put into the `allOf` are exactly the heritage entries whose text is not a marker base |
| Translator.TranslateLiteral | generate.ts:99-124 | the five literal cases with their schemas, and failure exactly for any other literal kind |
| Translator.KeywordSchema | generate.ts:235-260 | `string` is a string; `number` and `bigint` are numbers; `boolean` is a boolean; `any` and `unknown` are `any`; `null` and `undefined` are `null`; every other keyword has no primitive |
| Translator.Placeholder | generate.ts:267-269 | the placeholder is the same `$ref` that requesting the node's text would return |
| Translator.SliceKindName | generate.ts:186 | `slice(12, -1)` drops the 12-character prefix and the last character: the name is the prefix, the result and the last character put together; a name of at most 12 characters gives the empty string |
| Translator.PropertyKey | generate.ts:183-190 | fails exactly for a bracketed name without the `[SyntaxKind.` prefix; an unbracketed name is its own key |
| Translator.SyntaxKindKey | generate.ts:184-186 | `[SyntaxKind.X]` is keyed `X` |
| Translator.TranslateValueOf | generate.ts:148-167 | succeeds exactly with one type argument naming an interface, and is then the string enum of that interface's values |
| Translator.PropertiesOf | generate.ts:198 | the last entry's value is the one its key holds |
| Translator.PropertiesKeys | generate.ts:198 | `Object.fromEntries` has exactly the entries' names as keys |
| Translator.PropertiesLast | generate.ts:198 | a key holds the value of the last entry with that name |
| Translator.RequiredOf | generate.ts:199-201 | exactly the names of the required entries |
| Translator.Requests | generate.ts:53-71 | the names `requestType` is called with while a node is translated: kind constants, keywords, literals, the placeholder and `ValueOf<T>` (even its `T`) request nothing |
| Translator.AlternativeRequestsKept | generate.ts:84-97 | a union requests exactly what its kept alternatives request, in order |
| Translator.Translate | generate.ts:73-270 | on success the pending stack is the old one with the node's requests pushed in order |
| Translator.LeafSchema | generate.ts:99-170 | a leaf fails exactly for an unsupported literal, a qualified name outside the kind namespaces, or a `ValueOf` whose argument is not one interface |
| Translator.TranslateLeaf | generate.ts:99-170 | a leaf succeeds exactly when its schema does; the pending stack is then `PushAll` of its requests, so only fresh names are pushed and every name it refers to is then defined or pending |
| Translator.TranslateAlternatives | generate.ts:84-97 | one alternative per kept member, with the kept members' requests pushed |
| Translator.TranslateMembers | generate.ts:172-194 | one entry per member; every member is a typed property signature; each key is the member's property key and `required` is the absence of `?` |
| Translator.TranslateList | generate.ts:225 | one fragment per node, with the nodes' requests pushed in order |
| Translator.TranslateInterface | generate.ts:172-228 | on success the members' requests and then the bases' requests are pushed |
| Translator.TranslateIndependent | generate.ts:73-270 | the fragment of a node does not depend on the defined names or the pending stack |
| Translator.AlternativesIndependent | generate.ts:84-97 | the union alternatives do not depend on the worklist state |
| Translator.MembersIndependent | generate.ts:172-194 | the member entries do not depend on the worklist state |
| TranslatorLaws.ListIndependent | generate.ts:225 | translating a list of bases does not depend on the worklist state |
| TranslatorLaws.ListSucceeds | generate.ts:225 | a list translates exactly when each node does |
| TranslatorLaws.ListValues | generate.ts:225 | a translated list holds the nodes' fragments in order |
| TranslatorLaws.ListFragments | generate.ts:225 | both of the above together |
| TranslatorLaws.AlternativesAreKept | generate.ts:84-97 | skipping excluded alternatives while translating is translating the kept list |
| TranslatorLaws.UnionLaw | generate.ts:84-97 | a union succeeds exactly when every kept alternative does; it is a `oneOf` of one fragment per kept alternative, in order, one fewer per excluded alternative |
| TranslatorLaws.RequiredKeys | generate.ts:199-201 | the reference list of required keys holds exactly the keys of members without `?` |
| TranslatorLaws.MembersSucceed | generate.ts:173-194 | a member list translates exactly when every member is a typed property signature with an accepted key whose type translates |
| TranslatorLaws.MemberDefs | generate.ts:173-194 | each entry holds the fragment of its member's type |
| TranslatorLaws.MemberFragments | generate.ts:173-194 | both of the above together |
| TranslatorLaws.RequiredOfEntries | generate.ts:196-202 | the `required` list of the entries is the required-keys reference list |
| TranslatorLaws.PropertyKeys | generate.ts:196-202 | the object's property keys are exactly the members' keys |
| TranslatorLaws.PropertyValues | generate.ts:196-202 | each key holds the fragment of the last member with that key |
| TranslatorLaws.ObjectOfShape | generate.ts:196-202 | the object built from translated members has the members' object shape |
| TranslatorLaws.ObjectShapeLaw | generate.ts:172-205 | an inline object shape succeeds exactly when its members translate, and is then their object shape |
| TranslatorLaws.InterfaceIndependent | generate.ts:172-228 | an interface's definition does not depend on the worklist state |
| TranslatorLaws.HeritageLaw | generate.ts:204-228 | success iff the members and all remaining bases translate; no bases gives the own shape; otherwise an `allOf` of the base fragments in clause order and the own shape last, where a base without type arguments is a reference |
| TranslatorLaws.HeritageOutcome | generate.ts:204-228 | an interface translates exactly when every member and every remaining base does |
| TranslatorLaws.HeritageParts | generate.ts:204-228 | a translated interface is its own shape, or an `allOf` of the base fragments in clause order with that shape last |
| TranslatorLaws.HeritageObject | generate.ts:204-228 | the own object shape comes last, after exactly one part per remaining base |
| TranslatorLaws.HeritageBases | generate.ts:204-228 | the leading parts are the bases' fragments in clause order; a base without type arguments is a reference to its name |
| TranslatorLaws.ReferenceLaw | generate.ts:132-170 | a plain reference is a `$ref` to its name, which is then defined or pending; `ValueOf` is the value-extraction form; a qualified reference succeeds exactly for the two kind namespaces, as a one-value string enum |
| TranslatorLaws.ArrayLaw | generate.ts:77-82 | an array succeeds exactly when its element does, as an array schema of the element's fragment |
| TranslatorLaws.ParenthesizedLaw | generate.ts:231-233 | parentheses are transparent |
| TranslatorLaws.LiteralLaw | generate.ts:99-124 | a literal type fails exactly for an unsupported literal kind; otherwise it is the literal's schema and requests nothing |
| TranslatorLaws.KeywordLaw | generate.ts:235-269 | a keyword always succeeds and requests nothing: the keyword's primitive from the keyword table for the known keywords, the placeholder keyed by its text otherwise |
| TranslatorLaws.HeritageEntryLaw | generate.ts:126-130 | a heritage entry without type arguments is a reference that requests its text; with type arguments it is the placeholder and requests nothing |
| TranslatorLaws.FallbackLaw | generate.ts:267-269 | any other form is the placeholder keyed by its raw text, requesting nothing |
| Resolver.DeclRequests | generate.ts:280-295 | the names a declaration's definition requests: none for an enum, and an interface's members' names before its bases' |
| Resolver.DeclToDefinition | generate.ts:280-295 | storing a declaration's definition pushes exactly that declaration's requests |
| Resolver.DefinitionLaw | generate.ts:280-295 | an interface's definition is its own translation, an alias's is its type's fragment, an enum's is the string enum of its member names in order |
| Resolver.DeclIndependent | generate.ts:280-295 | a declaration's definition does not depend on the worklist state |
| Resolver.StepMissing | generate.ts:274-278 | skipping an undeclared name reports it, keeps the invariant and does not increase the measure |
| Resolver.DefineDecreases | generate.ts:272-303 | storing a definition strictly decreases the loop measure |
| Resolver.DefineKeepsClosure | generate.ts:280-295 | after storing, every seed and every request of a definition is defined, missing or pending |
| Resolver.DefineKeepsRequested | generate.ts:280-295 | after storing, the order of first definitions is still grounded in the seeds, and every missing or pending name is a seed or requested by a name of that order |
| Resolver.GroundedExtend | generate.ts:280-295 | appending a name that is a seed or requested by the order keeps the order grounded |
| Resolver.StepFails | generate.ts:280-295 | a popped name whose definition fails was reached from the seeds through names whose definitions succeed |
| Resolver.DefineKeepsDefinitions | generate.ts:280-295 | every stored definition is still the definition of its declaration |
| Resolver.DefineKeepsOrder | generate.ts:280-295 | the insertion order lists each defined name once |
| Resolver.DefineKeepsDistinct | generate.ts:62-66 | a duplicate-free pending stack stays duplicate-free |
| Resolver.StepDefine | generate.ts:272-303 | a definition step keeps the whole loop invariant and decreases the measure |
| Resolver.UnreachedCycleNotSound | generate.ts:272-303 | two aliases that request each other but that no seed reaches cannot form a sound result |
| Resolver.Resolve | generate.ts:272-303 | the loop terminates. On success every definition is its declaration's and every reported missing name is undeclared. The result is closed under requests. Each defined name is a seed or is requested by a name defined before it. On failure the error is the definition failure of a declaration that the loop reaches from the seeds |
| Ordering.Less | generate.ts:314 | the name order is the lexicographic order on character codes: a proper prefix first, else the smaller code at the first difference |
| Ordering.LessIrreflexive | generate.ts:314 | no name sorts before itself |
| Ordering.LessTransitive | generate.ts:314 | the name order is transitive |
| Ordering.LessTotal | generate.ts:314 | any two different names are ordered |
| Ordering.LessAsymmetric | generate.ts:314 | the name order is asymmetric |
| Assembler.Without | generate.ts:305-306 | removing `Program` keeps exactly the other names |
| Assembler.Insert | generate.ts:314 | insertion adds exactly the new name |
| Assembler.SortNames | generate.ts:314 | the sorted list has exactly the input's names |
| Assembler.InsertSorted | generate.ts:314 | insertion keeps a list strictly sorted |
| Assembler.SortNamesSorted | generate.ts:314 | the sort result is strictly increasing |
| Assembler.SortedUnique | generate.ts:314 | two strictly sorted lists of the same names are equal |
| Assembler.EntriesOf | generate.ts:313-315 | one `[name, definition]` entry per name, in order |
| Assembler.Assemble | generate.ts:305-317 | `Program` becomes the root. Every other definition is listed once, with its own schema and nothing else, in strictly increasing name order |
| Assembler.AssembleOrderIndependent | generate.ts:305-317 | the document depends only on the definitions, not on the order they were stored in |
| Generator.Generate | generate.ts:19-317 | end to end: a failure is the definition failure of a declaration reached from the seeds. A declared `Program` is the root with its own definition. Every listed definition is a declared name's definition, in strictly increasing name order. Every declared seed other than `Program` is listed. Every name requested by a listed definition or the root is listed, is `Program` or is undeclared. Every listed name and the root are reached from the seeds |
| Generator.AssembledDocument | generate.ts:272-317 | the document assembled from a sound resolution has the root, listing, closure and reachability properties stated for `Generate` |
| Generator.AssembledRoot | generate.ts:305-306 | a declared `Program` is the root, with its declaration's definition; an undeclared one leaves no root |
| Generator.AssembledListing | generate.ts:52-57 | every listed entry is a declared name's definition, and every declared seed other than `Program` is listed |
| Generator.AssembledClosed | generate.ts:59-71 | every name requested by a listed definition or the root is listed, is `Program` or is undeclared |
| Generator.AssembledGrounded | generate.ts:272-303 | the listed names and the root all belong to an order in which each is a seed or requested by an earlier name |

## Left out

- Fetching the declaration file, parsing it with the TypeScript compiler and writing `ast-spec.json` are I/O. Parsing is modelled as the input `seq<Statement>`, and the output as the `Document` value.
- Diagnostic `console.log` calls (missing declaration, fallback kind, unexpected declaration) are not modelled. Missing names are returned in `Resolution.missing` instead.
- The `declName` argument of `declToDef` and the `requester` argument of `requestType` are dropped, because only logging reads them.
- `getText(file)` is modelled by a `text` field on every type node, and by a `source` field on an unsupported literal. Member names, qualified-name parts and enum member names are modelled as their source text.
- Assembler.Assemble: `localeCompare` is replaced by ordinal lexicographic order on character codes, because locale collation is not modelled. The two orders differ on the program's own names: `TSAbstractKeyword` comes before `TaggedTemplateExpression` in ordinal order, but after it under `localeCompare`, which compares letters case-insensitively first.
- Assembler.Assemble: the key order of the written JSON text is not modelled. `properties` is a map, and `definitions` is a sequence sorted by name.
- Spreading `...program` onto the top level is modelled as the `root` field. Key collisions with `$schema` or `definitions` cannot arise, because a root object or `allOf` has neither key.
- `Record` lookups use `in` and prototype-inherited keys such as `constructor` are not modelled: every name is an ordinary key.
- The "unexpected decl type" throw (generate.ts:298-302) cannot be reached in the model, because a declaration has only the three kinds.
- A missing `heritageClauses` is modelled as an empty clause list, which the code treats the same way.
- Translator.TranslateAlternatives: a union whose alternatives are all excluded yields an empty `oneOf`, as the code does. The model keeps that behaviour and does not treat it as an error.
- Resolver.Resolve: the contract does not state that a missing name is reported only once, because the code can report it again. Nor does it state that a name is translated only once, because a self-referencing declaration is translated twice.
