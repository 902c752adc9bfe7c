/**
 * The conversation-item editor (packages/web/src/components/MetaDataEditor/ConversationMetaDataEditor/Item.tsx):
 * merging submitted form values into the edited item, the options of the "referenced message"
 * select, the form fields shown for each message type, and the send-time display rule.
 */
module ConversationItemEditor {
  import opened Wrappers

  /** `EConversationType`: the types the editor branches on, and any other member of the enum. */
  datatype ConversationType =
    | Text | CenterText | Image | Video | Voice | Transfer | RedPacket | PersonalCard
    | OtherType(tag: string)

  /** A field value as the form holds it; booleans, numbers, strings, or an opaque object. */
  datatype FieldValue = Undefined | Str(s: string) | Num(n: int) | Flag(b: bool) | Blob(handle: nat)

  /**
   * `TConversationItem`: the id, the type and the role the editor reads, and every other field
   * by name. An empty role stands for a missing one.
   */
  datatype ConversationItem = ConversationItem(
    id: string,
    kind: ConversationType,
    role: string,
    fields: map<string, FieldValue>)

  /**
   * The values the form submits: each present key is one of the form's fields. The form has no
   * field named `id`, so the id is never among them.
   */
  datatype FormValues = FormValues(
    kind: Option<ConversationType>,
    role: Option<string>,
    fields: map<string, FieldValue>)

  /** The keys held by the typed components of an item; the map of other fields never repeats them. */
  const TypedKeys: set<string> := {"id", "type", "role"}

  predicate WellFormed(item: ConversationItem) {
    TypedKeys !! item.fields.Keys
  }

  predicate WellFormedValues(values: FormValues) {
    TypedKeys !! values.fields.Keys
  }

  // ---------------------------------------------------------------------------
  // onFinish: merge by id
  // ---------------------------------------------------------------------------

  /** The submitted values spread over an item: submitted fields override, the others are kept. */
  function Merge(item: ConversationItem, values: FormValues): (r: ConversationItem)
    ensures r.id == item.id
    ensures r.kind == values.kind.GetOr(item.kind) && r.role == values.role.GetOr(item.role)
    ensures r.fields.Keys == item.fields.Keys + values.fields.Keys
    ensures forall k :: k in values.fields ==> r.fields[k] == values.fields[k]
    ensures forall k :: k in item.fields && k !in values.fields ==> r.fields[k] == item.fields[k]
    ensures WellFormed(item) && WellFormedValues(values) ==> WellFormed(r)
  {
    ConversationItem(item.id, values.kind.GetOr(item.kind), values.role.GetOr(item.role), item.fields + values.fields)
  }

  /** `onFinish`: the item with the edited id is merged with the submitted values, every other item is kept. */
  function MergeById(list: seq<ConversationItem>, dataId: string, values: FormValues): (r: seq<ConversationItem>)
    ensures |r| == |list|
    ensures forall i :: 0 <= i < |list| && list[i].id == dataId ==> r[i] == Merge(list[i], values)
    ensures forall i :: 0 <= i < |list| && list[i].id != dataId ==> r[i] == list[i]
    ensures WellFormedValues(values) && (forall i :: 0 <= i < |list| ==> WellFormed(list[i])) ==>
      forall i :: 0 <= i < |r| ==> WellFormed(r[i])
  {
    if list == [] then []
    else [if list[0].id == dataId then Merge(list[0], values) else list[0]] + MergeById(list[1..], dataId, values)
  }

  /** Merging the same values into an item twice is merging them once. */
  lemma MergeIdempotent(item: ConversationItem, values: FormValues)
    ensures Merge(Merge(item, values), values) == Merge(item, values)
  {
    var once := Merge(item, values);
    assert once.fields + values.fields == once.fields;
  }

  /** Submitting the same values twice is the same as submitting them once. */
  lemma MergeByIdIdempotent(list: seq<ConversationItem>, dataId: string, values: FormValues)
    ensures MergeById(MergeById(list, dataId, values), dataId, values) == MergeById(list, dataId, values)
  {
    var once := MergeById(list, dataId, values);
    var twice := MergeById(once, dataId, values);
    assert |twice| == |once|;
    forall i | 0 <= i < |once| ensures twice[i] == once[i] {
      if list[i].id == dataId {
        MergeIdempotent(list[i], values);
      }
    }
  }

  /** The ids of a list, in order; merging by id keeps them, so the list keeps its order. */
  function Ids(list: seq<ConversationItem>): (ids: seq<string>)
    ensures |ids| == |list| && forall i :: 0 <= i < |list| ==> ids[i] == list[i].id
  {
    if list == [] then [] else [list[0].id] + Ids(list[1..])
  }

  lemma MergeByIdKeepsIds(list: seq<ConversationItem>, dataId: string, values: FormValues)
    ensures Ids(MergeById(list, dataId, values)) == Ids(list)
  {
    var a, b := Ids(MergeById(list, dataId, values)), Ids(list);
    assert |a| == |b|;
    forall i | 0 <= i < |a| ensures a[i] == b[i] { }
  }

  // ---------------------------------------------------------------------------
  // The "referenced message" options
  // ---------------------------------------------------------------------------

  /** An option of the reference select: its label and, as its value, the referenced item's id. */
  datatype SelectOption = SelectOption(labelText: string, value: string)

  /** Only text and image messages other than the edited one can be referenced. */
  predicate Referable(item: ConversationItem, editedId: string) {
    (item.kind == Text || item.kind == Image) && item.id != editedId
  }

  /** `-` and the role when the role is non-empty, nothing otherwise. */
  function RoleSuffix(role: string): string {
    if role != "" then "-" + role else ""
  }

  /** The label: 消息（, the type's label (`ConversationTypeLabel`), a dash and the role if there is one, and ）. */
  function OptionLabel(item: ConversationItem, typeLabel: ConversationType -> string): (r: string)
    ensures item.role == "" ==> r == "消息（" + typeLabel(item.kind) + "）"
    ensures item.role != "" ==> r == "消息（" + typeLabel(item.kind) + "-" + item.role + "）"
  {
    "消息（" + typeLabel(item.kind) + RoleSuffix(item.role) + "）"
  }

  /** The option for an item: its value is the item's id. */
  function ToOption(item: ConversationItem, typeLabel: ConversationType -> string): (o: SelectOption)
    ensures o.value == item.id && o.labelText == OptionLabel(item, typeLabel)
  {
    SelectOption(OptionLabel(item, typeLabel), item.id)
  }

  /** The options of the reference select: the referable items of the list, as options, in list order. */
  function ReferenceOptions(list: seq<ConversationItem>, editedId: string, typeLabel: ConversationType -> string): (r: seq<SelectOption>)
    ensures |r| <= |list|
  {
    if list == [] then []
    else (if Referable(list[0], editedId) then [ToOption(list[0], typeLabel)] else [])
         + ReferenceOptions(list[1..], editedId, typeLabel)
  }

  /** The options of a concatenation are the options of each part, in order: the filter keeps list order. */
  lemma {:induction false} ReferenceOptionsAppend(a: seq<ConversationItem>, b: seq<ConversationItem>, editedId: string, typeLabel: ConversationType -> string)
    ensures ReferenceOptions(a + b, editedId, typeLabel)
         == ReferenceOptions(a, editedId, typeLabel) + ReferenceOptions(b, editedId, typeLabel)
    decreases |a|
  {
    if a != [] {
      var head := if Referable(a[0], editedId) then [ToOption(a[0], typeLabel)] else [];
      assert (a + b)[0] == a[0];
      assert (a + b)[1..] == a[1..] + b;
      ReferenceOptionsAppend(a[1..], b, editedId, typeLabel);
      calc {
        ReferenceOptions(a + b, editedId, typeLabel);
        head + ReferenceOptions(a[1..] + b, editedId, typeLabel);
        head + (ReferenceOptions(a[1..], editedId, typeLabel) + ReferenceOptions(b, editedId, typeLabel));
        (head + ReferenceOptions(a[1..], editedId, typeLabel)) + ReferenceOptions(b, editedId, typeLabel);
      }
    } else {
      assert a + b == b;
    }
  }

  /** An option is offered exactly when it is the option of some referable item of the list. */
  lemma {:induction false} ReferenceOptionsExact(list: seq<ConversationItem>, editedId: string, typeLabel: ConversationType -> string, o: SelectOption)
    ensures o in ReferenceOptions(list, editedId, typeLabel) <==>
      exists i :: 0 <= i < |list| && Referable(list[i], editedId) && o == ToOption(list[i], typeLabel)
    decreases |list|
  {
    if list != [] {
      ReferenceOptionsExact(list[1..], editedId, typeLabel, o);
      if exists i :: 0 <= i < |list| && Referable(list[i], editedId) && o == ToOption(list[i], typeLabel) {
        var i :| 0 <= i < |list| && Referable(list[i], editedId) && o == ToOption(list[i], typeLabel);
        if i > 0 {
          assert list[1..][i - 1] == list[i];
        }
      }
      if exists j :: 0 <= j < |list[1..]| && Referable(list[1..][j], editedId) && o == ToOption(list[1..][j], typeLabel) {
        var j :| 0 <= j < |list[1..]| && Referable(list[1..][j], editedId) && o == ToOption(list[1..][j], typeLabel);
        assert list[j + 1] == list[1..][j];
      }
    }
  }

  /** No option points at the edited message, and every option points at a text or image message of the list. */
  lemma ReferenceOptionsSound(list: seq<ConversationItem>, editedId: string, typeLabel: ConversationType -> string)
    ensures forall o :: o in ReferenceOptions(list, editedId, typeLabel) ==>
      o.value != editedId &&
      exists i :: 0 <= i < |list| && list[i].id == o.value && (list[i].kind == Text || list[i].kind == Image)
  {
    forall o | o in ReferenceOptions(list, editedId, typeLabel)
      ensures o.value != editedId
      ensures exists i :: 0 <= i < |list| && list[i].id == o.value && (list[i].kind == Text || list[i].kind == Image)
    {
      ReferenceOptionsExact(list, editedId, typeLabel, o);
    }
  }

  // ---------------------------------------------------------------------------
  // The fields shown for each type
  // ---------------------------------------------------------------------------

  /** The names of the type-specific `Form.Item`s. */
  datatype FieldName =
    | TextContent | ReferenceId | SimpleContent | ImageInfo | VideoInfo
    | Duration | IsRead | ShowStt | Stt
    | OriginalSender | Amount | Note | TransferStatus | RedPacketStatus
    | AvatarInfo | Nickname

  /** The form key each field is stored under in the item. */
  function FieldKey(f: FieldName): string {
    match f
    case TextContent => "textContent"
    case ReferenceId => "referenceId"
    case SimpleContent => "simpleContent"
    case ImageInfo => "imageInfo"
    case VideoInfo => "videoInfo"
    case Duration => "duration"
    case IsRead => "isRead"
    case ShowStt => "showStt"
    case Stt => "stt"
    case OriginalSender => "originalSender"
    case Amount => "amount"
    case Note => "note"
    case TransferStatus => "transferStatus"
    case RedPacketStatus => "redPacketStatus"
    case AvatarInfo => "avatarInfo"
    case Nickname => "nickname"
  }

  /** One `Form.Item`: the field, and whether it carries `required`. */
  datatype FormField = FormField(field: FieldName, required: bool)

  /** The if-chain on `type`: the fields shown between "upper text" and "send time". */
  function FieldGroup(kind: ConversationType): (r: seq<FormField>)
    ensures kind.OtherType? ==> r == []
    ensures forall i :: 0 <= i < |r| ==> kind in ShownFor(r[i].field)
  {
    match kind
    case Text => [FormField(TextContent, false), FormField(ReferenceId, false)]
    case CenterText => [FormField(SimpleContent, false)]
    case Image => [FormField(ImageInfo, false)]
    case Video => [FormField(VideoInfo, false)]
    case Voice => [FormField(Duration, true), FormField(IsRead, false), FormField(ShowStt, false), FormField(Stt, false)]
    case Transfer => [FormField(OriginalSender, true), FormField(Amount, true), FormField(Note, false), FormField(TransferStatus, true)]
    case RedPacket => [FormField(OriginalSender, true), FormField(Amount, false), FormField(Note, false), FormField(RedPacketStatus, true)]
    case PersonalCard => [FormField(AvatarInfo, false), FormField(Nickname, true)]
    case OtherType(_) => []
  }

  /** The fields of a group, in order. */
  function Fields(group: seq<FormField>): (fs: seq<FieldName>)
    ensures |fs| == |group| && forall i :: 0 <= i < |group| ==> fs[i] == group[i].field
  {
    if group == [] then [] else [group[0].field] + Fields(group[1..])
  }

  /** Read the other way round: which message types show a given field. */
  function ShownFor(f: FieldName): set<ConversationType> {
    match f
    case TextContent => {Text}
    case ReferenceId => {Text}
    case SimpleContent => {CenterText}
    case ImageInfo => {Image}
    case VideoInfo => {Video}
    case Duration => {Voice}
    case IsRead => {Voice}
    case ShowStt => {Voice}
    case Stt => {Voice}
    case OriginalSender => {Transfer, RedPacket}
    case Amount => {Transfer, RedPacket}
    case Note => {Transfer, RedPacket}
    case TransferStatus => {Transfer}
    case RedPacketStatus => {RedPacket}
    case AvatarInfo => {PersonalCard}
    case Nickname => {PersonalCard}
  }

  /** A field is shown for a type exactly when the table read by field says so. */
  lemma FieldGroupMatchesShownFor(kind: ConversationType, f: FieldName)
    ensures f in Fields(FieldGroup(kind)) <==> kind in ShownFor(f)
  {
    var fs := Fields(FieldGroup(kind));
    match kind
    case Text => assert fs == [TextContent, ReferenceId];
    case CenterText => assert fs == [SimpleContent];
    case Image => assert fs == [ImageInfo];
    case Video => assert fs == [VideoInfo];
    case Voice => assert fs == [Duration, IsRead, ShowStt, Stt];
    case Transfer => assert fs == [OriginalSender, Amount, Note, TransferStatus];
    case RedPacket => assert fs == [OriginalSender, Amount, Note, RedPacketStatus];
    case PersonalCard => assert fs == [AvatarInfo, Nickname];
    case OtherType(_) => assert fs == [];
  }

  /** Read by field: the message types whose branch marks the field `required`. */
  function RequiredFor(f: FieldName): set<ConversationType> {
    match f
    case Duration => {Voice}
    case OriginalSender => {Transfer, RedPacket}
    case Amount => {Transfer}
    case TransferStatus => {Transfer}
    case RedPacketStatus => {RedPacket}
    case Nickname => {PersonalCard}
    case _ => {}
  }

  /** A field is shown for a type with a given required flag exactly when both tables read by field say so. */
  lemma FieldGroupMatchesRequiredFor(kind: ConversationType, f: FieldName, required: bool)
    ensures FormField(f, required) in FieldGroup(kind) <==>
      kind in ShownFor(f) && (required <==> kind in RequiredFor(f))
  {
    FieldGroupMatchesShownFor(kind, f);
    var g := FieldGroup(kind);
    if FormField(f, required) in g {
      var i :| 0 <= i < |g| && g[i] == FormField(f, required);
      assert Fields(g)[i] == f;
    }
    if kind in ShownFor(f) && (required <==> kind in RequiredFor(f)) {
      assert f in Fields(g);
      var i :| 0 <= i < |g| && Fields(g)[i] == f;
      assert g[i].required == required;
    }
  }

  /** No type shows the same form key twice. */
  lemma FieldGroupDistinct(kind: ConversationType)
    ensures forall i, j :: 0 <= i < j < |FieldGroup(kind)| ==>
      FieldKey(FieldGroup(kind)[i].field) != FieldKey(FieldGroup(kind)[j].field)
  {
  }

  /** The amount is required of a transfer but not of a red packet; a message type without a branch shows nothing. */
  lemma AmountRequirement(tag: string)
    ensures FormField(Amount, true) in FieldGroup(Transfer)
    ensures FormField(Amount, false) in FieldGroup(RedPacket)
    ensures FieldGroup(OtherType(tag)) == []
  {
    assert FieldGroup(Transfer)[1] == FormField(Amount, true);
    assert FieldGroup(RedPacket)[1] == FormField(Amount, false);
  }

  // ---------------------------------------------------------------------------
  // The send time
  // ---------------------------------------------------------------------------

  const SendTimePlaceholder: string := "初始消息，没有时间信息"

  /** JavaScript truthiness of a field value. */
  predicate Truthy(v: FieldValue) {
    match v
    case Undefined => false
    case Str(s) => s != ""
    case Num(n) => n != 0
    case Flag(b) => b
    case Blob(_) => true
  }

  /** `getValueProps` of the send-time field: a formatted date when truthy, the placeholder otherwise. */
  function SendTimeDisplay(v: FieldValue, format: FieldValue -> string): (r: string)
    ensures !Truthy(v) ==> r == SendTimePlaceholder
    ensures Truthy(v) ==> r == format(v)
  {
    if Truthy(v) then format(v) else SendTimePlaceholder
  }

  /**
   * When the date format never yields the placeholder sentence, the placeholder is shown exactly
   * for falsy timestamps; a timestamp of 0 counts as missing.
   */
  lemma PlaceholderIffFalsy(v: FieldValue, format: FieldValue -> string)
    requires forall w :: format(w) != SendTimePlaceholder
    ensures SendTimeDisplay(v, format) == SendTimePlaceholder <==> !Truthy(v)
    ensures SendTimeDisplay(Num(0), format) == SendTimePlaceholder
  {
  }
}
