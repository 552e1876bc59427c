/** The signed records a board is made of. An identifier stands both for a key and for its hash, which the program
    treats as collision free; a signature is given by the set of keys under which it verifies. */
module Records {
  import opened Lists

  type Id = int

  type Signature = set<Id>

  // An invitation: `invitedBy` vouches for the holder of key `id`.
  datatype AuthorizedMember = AuthorizedMember(id: Id, invitedBy: Id, signature: Signature)

  datatype AuthorizedUserBan =
    AuthorizedUserBan(id: int, bannedAt: int, bannedUser: Id, bannedBy: Id, signature: Signature)

  datatype AuthorizedMemberInfo = AuthorizedMemberInfo(memberId: Id, version: nat, nicknameLen: nat,
                                                       signature: Signature)

  datatype SecretVersionRecord = SecretVersionRecord(version: nat, createdAt: int, signature: Signature)

  datatype EncryptedSecret =
    EncryptedSecret(memberId: Id, secretVersion: nat, ciphertext: seq<int>, signature: Signature)

  datatype CategoryEdit =
    CategoryEdit(newName: string, newDescription: Option<string>, newIcon: Option<string>, newColor: string)

  // An action on another message. A payload is `None` when its bytes do not decode.
  datatype ActionKind =
    | Edit(newText: Option<string>)
    | Delete
    | Reaction(emoji: Option<string>)
    | RemoveReaction(emoji: Option<string>)
    | EditCategory(edit: Option<CategoryEdit>)
    | UnknownAction(actionType: int)

  datatype Action = Action(kind: ActionKind, target: int)

  // The typed content of a public message, or of a decrypted private one. A title is given by its UTF-8 bytes.
  datatype Content =
    | Text(title: string)
    | Reply(title: string)
    | Category(title: string)
    | Act(action: Action)
    | Opaque // a known type that does not decode, or a type with no content of interest here

  datatype ContentType = TextType | ActionType | ReplyType | CategoryType | OtherType(tag: int)

  datatype Body =
    | Public(contentType: ContentType, data: Content, len: nat)
    | Private(contentType: ContentType, ciphertext: seq<int>, secretVersion: nat)
  {
    predicate IsAction() { contentType.ActionType? }

    predicate IsCategory() { contentType.CategoryType? }

    function ContentLen(): nat {
      match this
      case Public(_, _, len) => len
      case Private(_, ciphertext, _) => |ciphertext|
    }

    function TitleOf(): Option<string> {
      match this
      case Public(TextType, Text(t), _) => Some(t)
      case Public(ReplyType, Reply(t), _) => Some(t)
      case Public(CategoryType, Category(t), _) => Some(t)
      case _ => None
    }
  }

  datatype AuthorizedMessage = AuthorizedMessage(id: int, author: Id, time: int, body: Body, signature: Signature)

  // What a step reads of the parameters, the configuration and the admin list.
  datatype Config = Config(
    owner: Id,
    admins: set<Id>,
    maxUserBans: nat,
    maxMessageSize: nat,
    maxTitleSize: nat,
    maxNicknameSize: nat,
    privateMode: bool)

  function MemberKey(m: AuthorizedMember): Key { (m.id, 0) }

  function BanKey(b: AuthorizedUserBan): Key { (b.bannedAt, b.id) }

  function InfoKey(i: AuthorizedMemberInfo): Key { (i.memberId, 0) }

  function VersionKey(v: SecretVersionRecord): Key { (v.version, 0) }

  function SecretKey(s: EncryptedSecret): Key { (s.secretVersion, s.memberId) }

  function MessageKey(m: AuthorizedMessage): Key { (m.time, m.id) }
}
