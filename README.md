# Node detection and two editor updates of fake-world, in Dafny

This project models three parts of the web editor of fake-world. The editor renders mock chat
screens, and lets the user pick and edit any node of them.

- **The node-detection registry.** The higher-order component `canBeDetected` wraps a UI component.
  It does four things:
  - It gives each mounted wrapper an identity.
  - After mount, it publishes two entries in process-wide keyed stores: the node's metadata, and
    its record `{id, domElement, nodeTreeSort}`. It clears both after unmount.
  - It rewrites the metadata only when a projection of it changes. The projection keeps the type,
    the index and the operation keys.
  - Its pointer handlers drive two singleton slots, the hovered node and the activated node.

  The model has three layers:
  - `NodeDetected` holds the pure parts: the projection, the store effects, the handlers, the
    props forwarded to the wrapped component, and the memoisation choice.
  - `NodeLifecycle` is a state machine. Its state is the stores, a FIFO of scheduled `setTimeout`
    callbacks, an id counter and the last dependency key of each mounted wrapper. It proves an
    invariant that every event keeps. From that invariant it proves that an unmounted node leaves
    nothing behind once its callbacks have run.
  - `NodeRegistry.Registry` holds the same state as mutable fields, with one method per event.
    Each method is proved equal to the matching step of the state machine.
- **The conversation-item editor** (`ConversationItemEditor`). It covers four things:
  - the merge-by-id that runs on submit;
  - the options of the "referenced message" select;
  - the form fields shown for each message type;
  - the send-time placeholder.
- **The data-source edit dialog** (`DataSourceManage`). It covers the rename-by-id and the
  name button, which toggles between showing the name and editing it. The toggle is a class with
  a mutable `isEditName` field.

The client method `NodeRegistry.TwoWrappers` calls the registry's methods in sequence on two wrappers. It has no contract of its own: its asserts use only the methods' contracts.

`Wrappers` holds `Option` and a map lookup that is convenient for quantifiers.

These are inputs or parameters of the model:
- The DOM element a callback sees is an input, `Option<Handle>`.
- Whether a SortableJS drag is active is an input, `dragActive`.
- Preview mode is an input, `isPreview`.
- `useId` is a counter.
- `ConversationTypeLabel` is a parameter `typeLabel`.
- The dayjs date format is a parameter `format`.

## Model

| member | source | states |
|---|---|---|
| NodeDetected.OperationKeys | packages/web/src/components/NodeDetected/index.tsx:41 | one compared key per operation, in order; a missing key compares as the empty string |
| NodeDetected.MapComparedAll | packages/web/src/components/NodeDetected/index.tsx:43 | list metadata projects element by element, keeping length and order |
| NodeDetected.MapCompared | packages/web/src/components/NodeDetected/index.tsx:38-42 | an absent value projects to no type, no index and no keys; a present one to its type, its index and one compared key per operation, in order |
| NodeDetected.ComparedInjectMetaData | packages/web/src/components/NodeDetected/index.tsx:43 | the dependency key is a list exactly for list metadata, projected element by element with the length kept; otherwise it is the single projection |
| NodeDetected.ProjectionEqualIff | packages/web/src/components/NodeDetected/index.tsx:38-42 | two metadata values have equal projections if and only if they agree on type, index and the key of every operation position |
| NodeDetected.DisplayNameIgnored | packages/web/src/components/NodeDetected/index.tsx:38-43 | changing only `treeItemDisplayName`, in a single value or anywhere in a list, leaves the dependency key unchanged |
| NodeDetected.MissingKeyComparesAsEmpty | packages/web/src/components/NodeDetected/index.tsx:41 | two operation lists that differ only where one has no key and the other has key '' (and in the operations' other fields) project alike |
| NodeDetected.SingleAndListDiffer | packages/web/src/components/NodeDetected/index.tsx:43 | a single value and the one-element list holding it have different keys |
| NodeDetected.Register | packages/web/src/components/NodeDetected/index.tsx:46-55 | with no element, nothing changes; with one, meta[id] is the metadata and record[id] is {id, element, nodeTreeSort}; other ids and both slots are unchanged |
| NodeDetected.Clear | packages/web/src/components/NodeDetected/index.tsx:57-59 | both entries of id are gone, other ids and the slots are unchanged, and clearing an absent id is a no-op |
| NodeDetected.WriteMeta | packages/web/src/components/NodeDetected/index.tsx:67-69 | the update effect sets meta[id] only; records, other ids and the slots are unchanged |
| NodeDetected.OnMouseOver | packages/web/src/components/NodeDetected/index.tsx:82-86 | during a drag nothing changes; otherwise hover becomes this id; nothing but hover ever changes |
| NodeDetected.OnMouseLeave | packages/web/src/components/NodeDetected/index.tsx:76-80 | during a drag nothing changes; otherwise hover is cleared whoever held it; nothing but hover ever changes |
| NodeDetected.OnClick | packages/web/src/components/NodeDetected/index.tsx:71-74 | activated becomes this id, drag or no drag; nothing else changes |
| NodeDetected.ForwardProps | packages/web/src/components/NodeDetected/index.tsx:88-107 | forwarded props never hold metaData, innerRef or nodeTreeSort; id and nd-id are the identity in both modes; preview attaches no handler of the wrapper; edit attaches all three under their names; other caller props pass through unchanged, and nothing else is added |
| NodeDetected.Deliver | packages/web/src/components/NodeDetected/index.tsx:71-107 | an event reaching a rendered element never changes the metadata or record stores, and with no handler of the wrapper attached for it changes nothing |
| NodeDetected.DeliverThroughForwarded | packages/web/src/components/NodeDetected/index.tsx:90-107 | whatever the caller passed, an event in preview mode changes no store, and in edit mode it runs exactly this wrapper's handler |
| NodeDetected.Bubble | packages/web/src/components/NodeDetected/index.tsx:71-86 | an event bubbling through nested wrappers never changes the metadata or record stores, and in preview mode changes nothing |
| NodeDetected.BubbleIsInnermostDelivery | packages/web/src/components/NodeDetected/index.tsx:71-86 | a bubbling event through nested wrappers changes the stores exactly as the innermost wrapper's delivery does |
| NodeDetected.Rerenders | packages/web/src/components/NodeDetected/index.tsx:112 | with propsAreEqual false the wrapper always re-renders; otherwise the default shallow memo or the caller's comparison decides |
| NodeDetected.ForwardPropsIgnoreControl | packages/web/src/components/NodeDetected/index.tsx:88-107 | caller props that differ only in metaData, innerRef or nodeTreeSort forward the same props to the wrapped component |
| NodeDetected.SkippedRenderLosesNothing | packages/web/src/components/NodeDetected/index.tsx:112 | a re-render the default memo skips would have given the wrapped component the same props |
| NodeDetected.ControlPropChangeStillRerenders | packages/web/src/components/NodeDetected/index.tsx:88-112 | the default memo compares the control props too: props that differ only there still re-render the wrapper, although the forwarded props are equal |
| NodeDetected.MetaDataChangeRerenders | packages/web/src/components/NodeDetected/index.tsx:88-112 | changing metaData alone re-renders the memoised wrapper while its forwarded props stay equal |
| NodeLifecycle.MountStep | packages/web/src/components/NodeDetected/index.tsx:29-55 | a mount takes the next id, records the first render's key, appends its registration (with the first render's metadata) to the queue, and writes no store |
| NodeLifecycle.RerenderStep | packages/web/src/components/NodeDetected/index.tsx:67-69 | a re-render records the new key; meta[id] becomes the new metadata exactly when the key changed; other ids, records, slots, queue and counter are unchanged |
| NodeLifecycle.UnmountStep | packages/web/src/components/NodeDetected/index.tsx:56-64 | an unmount drops the wrapper from the mounted set, appends its clearing to the queue, and writes no store |
| NodeLifecycle.TimerStep | packages/web/src/components/NodeDetected/index.tsx:46-63 | the oldest callback leaves the queue; a registration applies Register with the element seen now, a clearing applies Clear; the mounted set and counter are unchanged |
| NodeLifecycle.PointerStep | packages/web/src/components/NodeDetected/index.tsx:71-107 | a pointer event changes neither the metadata nor the record stores, nor the queue, mounted set or counter |
| NodeLifecycle.InitValid | packages/web/src/components/NodeDetected/index.tsx:45-65 | the empty registry satisfies the invariant |
| NodeLifecycle.MountIsFresh | packages/web/src/components/NodeDetected/index.tsx:31 | a mount's id is used by no mounted wrapper, store entry or scheduled callback |
| NodeLifecycle.MountPreservesValid | packages/web/src/components/NodeDetected/index.tsx:45-55 | mounting keeps the invariant |
| NodeLifecycle.RerenderPreservesValid | packages/web/src/components/NodeDetected/index.tsx:67-69 | a metadata update keeps the invariant |
| NodeLifecycle.UnmountPreservesValid | packages/web/src/components/NodeDetected/index.tsx:56-64 | unmounting keeps the invariant |
| NodeLifecycle.TimerPreservesValid | packages/web/src/components/NodeDetected/index.tsx:46-63 | running the oldest scheduled callback, register or clear, keeps the invariant |
| NodeLifecycle.PointerPreservesValid | packages/web/src/components/NodeDetected/index.tsx:71-86 | pointer events keep the invariant |
| NodeLifecycle.StepPreservesValid | packages/web/src/components/NodeDetected/index.tsx:45-86 | every enabled event keeps the invariant |
| NodeLifecycle.RunPreservesValid | packages/web/src/components/NodeDetected/index.tsx:45-86 | every run of enabled events keeps the invariant |
| NodeLifecycle.ReachableValid | packages/web/src/components/NodeDetected/index.tsx:45-86 | every state reachable from the empty registry satisfies the invariant |
| NodeLifecycle.NoLeakOnceDrained | packages/web/src/components/NodeDetected/index.tsx:56-59 | in a valid state with no scheduled callbacks, an unmounted node has neither metadata nor a record |
| NodeLifecycle.DeferredClearRemoves | packages/web/src/components/NodeDetected/index.tsx:57-59 | after a node's clearing callback runs, the node has no entries and nothing scheduled |
| NodeLifecycle.GoneIsStable | packages/web/src/components/NodeDetected/index.tsx:45-86 | once a node is gone, no later event brings any of it back |
| NodeLifecycle.DrainPreservesValid | packages/web/src/components/NodeDetected/index.tsx:46-63 | running all scheduled callbacks keeps the invariant, empties the queue and leaves the mounted set as it was |
| NodeLifecycle.Updates | packages/web/src/components/NodeDetected/index.tsx:67-69 | any number of metadata updates keeps the wrapper mounted, and keeps the queue, the counter, the records and the slots |
| NodeLifecycle.UpdatesPreserve | packages/web/src/components/NodeDetected/index.tsx:67-69 | any number of metadata updates keeps the invariant |
| NodeLifecycle.MountUpdatesUnmountLeavesNothing | packages/web/src/components/NodeDetected/index.tsx:45-69 | mount, then any updates, then unmount; once the scheduled callbacks have run, the node has neither record nor metadata, whatever element each callback saw |
| NodeLifecycle.RerenderWritesOnlyOnChange | packages/web/src/components/NodeDetected/index.tsx:67-69 | a re-render whose dependency key is unchanged leaves the whole state as it was |
| NodeLifecycle.DisplayNameChangeWritesNothing | packages/web/src/components/NodeDetected/index.tsx:38-69 | a re-render that changes only display-name resolvers writes nothing |
| NodeLifecycle.FirstRenderWritesNothing | packages/web/src/components/NodeDetected/index.tsx:45-69 | mounting writes no store, and a re-render with the first render's metadata writes nothing |
| NodeLifecycle.EarlyUpdateIsOverwrittenByMountCallback | packages/web/src/components/NodeDetected/index.tsx:45-69 | a key-changing update before the mount callback runs is overwritten by the first render's metadata, and a later identical update does not restore it |
| NodeLifecycle.UnmountKeepsSlots | packages/web/src/components/NodeDetected/index.tsx:56-63 | unmounting and any callback leave the hover and activated slots as they were, so stale ids stay |
| NodeLifecycle.PointerSequence | packages/web/src/components/NodeDetected/index.tsx:71-86 | after any pointer sequence, activated is the last clicked id or its old value; outside a drag, hover follows the last over or leave; meta and records never change |
| NodeLifecycle.ClickABA | packages/web/src/components/NodeDetected/index.tsx:71-74 | clicking A, then B, then A leaves A activated |
| NodeLifecycle.DragFreezesHover | packages/web/src/components/NodeDetected/index.tsx:76-86 | during a drag, any sequence of over and leave events changes nothing |
| NodeLifecycle.EditModeScenario | packages/web/src/components/NodeDetected/index.tsx:45-86 | mount, register, hover, click, unmount and clear leave empty stores, while both slots still name the node |
| NodeLifecycle.PointerStepIsDelivery | packages/web/src/components/NodeDetected/index.tsx:88-107 | a pointer step changes the stores exactly as delivering the event to the element rendered with the wrapper's forwarded props, for any caller props |
| NodeLifecycle.PreviewIgnoresPointer | packages/web/src/components/NodeDetected/index.tsx:90-97 | the element rendered in preview mode carries no handler of the wrapper, so no pointer event changes the stores or the state |
| NodeRegistry.Registry.constructor | packages/web/src/components/NodeDetected/index.tsx:31 | an empty registry satisfying the invariant: no entries, empty slots, nothing scheduled, and the id counter at its start |
| NodeRegistry.Registry.Mount | packages/web/src/components/NodeDetected/index.tsx:31-55 | returns a fresh id, schedules its registration, writes no store and keeps the invariant |
| NodeRegistry.Registry.Rerender | packages/web/src/components/NodeDetected/index.tsx:67-69 | the state becomes the metadata-update step; records, queue, counter and slots are unchanged; the invariant is kept |
| NodeRegistry.Registry.Unmount | packages/web/src/components/NodeDetected/index.tsx:56-64 | schedules the clearing, leaves stores and slots unchanged and keeps the invariant |
| NodeRegistry.Registry.RunTimer | packages/web/src/components/NodeDetected/index.tsx:46-63 | runs the oldest callback as the timer step; a clearing callback leaves its node gone; slots are unchanged; the invariant is kept |
| NodeRegistry.Registry.MouseOver | packages/web/src/components/NodeDetected/index.tsx:82-86 | hover becomes the id unless in preview or during a drag; nothing else changes |
| NodeRegistry.Registry.MouseLeave | packages/web/src/components/NodeDetected/index.tsx:76-80 | hover is cleared unless in preview or during a drag; nothing else changes |
| NodeRegistry.Registry.Click | packages/web/src/components/NodeDetected/index.tsx:71-74 | activated becomes the id unless in preview; nothing else changes |
| ConversationItemEditor.Merge | packages/web/src/components/MetaDataEditor/ConversationMetaDataEditor/Item.tsx:19 | the merged item keeps its id; submitted fields override and every other field of the item is kept; well-formed item and values give a well-formed item |
| ConversationItemEditor.MergeById | packages/web/src/components/MetaDataEditor/ConversationMetaDataEditor/Item.tsx:18-20 | the length is kept; an item with the edited id is merged; every other item is unchanged; a well-formed list stays well-formed |
| ConversationItemEditor.MergeIdempotent | packages/web/src/components/MetaDataEditor/ConversationMetaDataEditor/Item.tsx:19 | merging the same values into an item twice equals merging them once |
| ConversationItemEditor.MergeByIdIdempotent | packages/web/src/components/MetaDataEditor/ConversationMetaDataEditor/Item.tsx:19 | submitting the same values twice equals submitting them once |
| ConversationItemEditor.MergeByIdKeepsIds | packages/web/src/components/MetaDataEditor/ConversationMetaDataEditor/Item.tsx:19 | the sequence of ids, and so the list order, is unchanged |
| ConversationItemEditor.OptionLabel | packages/web/src/components/MetaDataEditor/ConversationMetaDataEditor/Item.tsx:85 | the label is 消息（type label）, with -role before the closing bracket exactly when the role is non-empty |
| ConversationItemEditor.ToOption | packages/web/src/components/MetaDataEditor/ConversationMetaDataEditor/Item.tsx:84-86 | an option's value is the item's id and its label is the item's label |
| ConversationItemEditor.ReferenceOptions | packages/web/src/components/MetaDataEditor/ConversationMetaDataEditor/Item.tsx:82-87 | there are never more options than items |
| ConversationItemEditor.ReferenceOptionsAppend | packages/web/src/components/MetaDataEditor/ConversationMetaDataEditor/Item.tsx:82-87 | the options of a concatenation are the options of each part in order, so list order is kept |
| ConversationItemEditor.ReferenceOptionsExact | packages/web/src/components/MetaDataEditor/ConversationMetaDataEditor/Item.tsx:82-87 | an option is offered if and only if it is the option of some text or image item whose id is not the edited one |
| ConversationItemEditor.ReferenceOptionsSound | packages/web/src/components/MetaDataEditor/ConversationMetaDataEditor/Item.tsx:83-86 | no option's value is the edited id, and every value is the id of a text or image item of the list |
| ConversationItemEditor.FieldGroup | packages/web/src/components/MetaDataEditor/ConversationMetaDataEditor/Item.tsx:71-215 | every field a type shows is listed for that type by the per-field table; a type without a branch shows nothing |
| ConversationItemEditor.FieldGroupMatchesShownFor | packages/web/src/components/MetaDataEditor/ConversationMetaDataEditor/Item.tsx:71-215 | a field is shown for a type if and only if the per-field table lists that type; types without a branch show nothing |
| ConversationItemEditor.FieldGroupMatchesRequiredFor | packages/web/src/components/MetaDataEditor/ConversationMetaDataEditor/Item.tsx:71-215 | a field is shown for a type with a given required flag if and only if the per-field tables list the type, and list it as requiring the field exactly when the flag is set |
| ConversationItemEditor.FieldGroupDistinct | packages/web/src/components/MetaDataEditor/ConversationMetaDataEditor/Item.tsx:71-215 | no type's group shows the same form key twice |
| ConversationItemEditor.AmountRequirement | packages/web/src/components/MetaDataEditor/ConversationMetaDataEditor/Item.tsx:146-189 | the transfer amount is required and the red-packet amount is not; an unlisted type shows no fields |
| ConversationItemEditor.SendTimeDisplay | packages/web/src/components/MetaDataEditor/ConversationMetaDataEditor/Item.tsx:220-224 | a falsy timestamp shows the placeholder sentence; a truthy one shows the formatted date |
| ConversationItemEditor.PlaceholderIffFalsy | packages/web/src/components/MetaDataEditor/ConversationMetaDataEditor/Item.tsx:220-224 | the placeholder is shown if and only if the timestamp is falsy, given a format that never yields the placeholder; 0 counts as missing |
| DataSourceManage.Rename | packages/web/src/components/LeftPanel/DataSourceManage/EditDataSourceModal.tsx:53 | the length is kept; an item with the id gets the new name and keeps its other fields; every other item is unchanged |
| DataSourceManage.FindById | packages/web/src/components/LeftPanel/DataSourceManage/EditDataSourceModal.tsx:20 | finds an item if and only if one has the id, and then it is the first such item |
| DataSourceManage.RenameThenFind | packages/web/src/components/LeftPanel/DataSourceManage/EditDataSourceModal.tsx:20-53 | after the rename, the dialog's lookup finds the same item with the new name |
| DataSourceManage.RenameLastWins | packages/web/src/components/LeftPanel/DataSourceManage/EditDataSourceModal.tsx:53 | renaming twice equals renaming once to the second name |
| DataSourceManage.CommittedName | packages/web/src/components/LeftPanel/DataSourceManage/EditDataSourceModal.tsx:52 | a missing input commits the empty string; a present one commits its value |
| DataSourceManage.NameButtonStep | packages/web/src/components/LeftPanel/DataSourceManage/EditDataSourceModal.tsx:50-60 | the button flips isEditName; while not editing the list is kept; while editing the committed name is renamed onto the dialog's id |
| DataSourceManage.EditThenCommit | packages/web/src/components/LeftPanel/DataSourceManage/EditDataSourceModal.tsx:45-60 | edit then confirm shows the name again; the item gets the committed name and keeps its type; the other items and the length are unchanged |
| DataSourceManage.EditDataSourceModal.constructor | packages/web/src/components/LeftPanel/DataSourceManage/EditDataSourceModal.tsx:18-22 | the dialog opens showing the name, for an id that must be listed |
| DataSourceManage.EditDataSourceModal.ClickNameButton | packages/web/src/components/LeftPanel/DataSourceManage/EditDataSourceModal.tsx:50-60 | the new list and isEditName are the button step of the old ones; after a commit the shown name is the committed name; the id stays listed |

## Left out

- Server routes, the database, file and clipboard I/O are not part of this model. That covers packages/api, the database export of the dialog (EditDataSourceModal.tsx:64-84), and the ID copy button (EditDataSourceModal.tsx:30-37).
- App.tsx, useAssetsCache, the chat input and the contacts page are not part of this model. They only use the components modelled here, or render.
- React, recoil and antd Form mechanics are modelled as explicit state and inputs, not as the libraries. This covers subscriptions, ref merging (`mergedRef` is one opaque value), and the focus of the input after the edit button.
- `setTimeout` delays are not modelled. Callbacks run in scheduling order, one `Timer` event each.
- The dependency key is compared structurally. This treats `JSON.stringify` as injective on projections, which holds for the values it can see.
- The SortableJS algorithm is not modelled. Only the `Sortable.active` flag is an input.
- `useId` internals are not modelled. Identities come from a counter and are never reused.
- The state machine does not combine `Rerenders` with `RerenderStep`: a render that memo skips simply produces no `Rerender` event. SkippedRenderLosesNothing shows such a skip hides nothing the wrapped component would receive.
- The recoil atoms themselves, with their defaults, are declared outside the modelled files. The model takes them as empty maps and empty slots at start, which is `Init`.
- `NodeDetected.displayName` and the three prebuilt wrappers (index.tsx:110, 117-119) are naming and instances, not behaviour.
- Amount formatting with `parseFloat` and `toFixed` (Item.tsx:151-157) is left out. It is floating point.
- The dayjs date formatting is left out. It is the parameter `format`.
- The "auto time" button of the upper text (Item.tsx:61-64) is left out. It reads the clock.
- The effect that copies the transfer status into `status` on data change (Item.tsx:22-26) is left out. It writes an antd form field that no modelled code reads.
- The auto-submit 100 ms after every value change (Item.tsx:34-38) is left out. It is timing; what is submitted is `MergeById`.
- The validation that the `required` rules perform is left out. `FieldGroup` records which fields carry `required`, not how antd enforces it.
- Handlers that a caller passes in its own props are taken to change none of the registry's stores or slots: `Deliver` leaves the stores as they were when the wrapper's own handler is not attached. DeliverThroughForwarded, BubbleIsInnermostDelivery, PointerStepIsDelivery and PreviewIgnoresPointer rest on this. Whatever such a handler does elsewhere is not part of this model.
- An item's `fields` map holds the fields other than id, type and role; `WellFormed` states that it never repeats those three keys, and `Merge` and `MergeById` keep it. `OtherType(tag)` stands for an `EConversationType` member other than the eight named ones; an `OtherType` carrying a named member's tag stands for nothing.
- ConversationItemEditor.ReferenceOptions: its own contract only bounds the length. Exactly which options appear, and in what order, is stated by ReferenceOptionsExact and ReferenceOptionsAppend.
- ConversationItemEditor.PlaceholderIffFalsy: it assumes the date format never produces the placeholder sentence, which dayjs formats cannot do.

Where the code and its description differ, the model follows the code:
- The default memo comparison sees every prop, control props included.
- Unmounting does not clear the hover or activated slot; the code that would is commented out.
- Preview mode does not bypass registration: the mount effect has no mode check and the element still receives the merged ref, so a previewed wrapper registers and clears like any other. Only the pointer handlers are withheld in preview.
- The record is written only by the mount callback, whose effect has no dependencies. A re-render never rewrites it, so a later change of `nodeTreeSort` or of the element is never published: `RerenderStep` keeps the records.
- The mount callback publishes the metadata of the first render, even if a re-render changed it before the callback ran.
