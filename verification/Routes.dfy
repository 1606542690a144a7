/** The screens the shell can show and the pane slot each one lives in. */
module Routes {

  datatype PaneSlot = Primary | Secondary | Tertiary {
    function Index(): nat {
      match this
      case Primary => 0
      case Secondary => 1
      case Tertiary => 2
    }
  }

  /** Slots in index order. */
  const ALL_SLOTS: seq<PaneSlot> := [Primary, Secondary, Tertiary]

  datatype RootTab = Feed | Search | Shorts | Chats | Vacancies | Music | Profile {
    /** Position in presentation order, which is not the order of declaration. */
    function Index(): nat
      ensures Index() < SECTION_COUNT
    {
      match this
      case Feed => 0
      case Search => 1
      case Chats => 2
      case Shorts => 3
      case Vacancies => 4
      case Music => 5
      case Profile => 6
    }
  }

  const SECTION_COUNT: nat := 7

  /** The inverse of `RootTab.Index`. */
  function TabAt(index: nat): (tab: RootTab)
    requires index < SECTION_COUNT
    ensures tab.Index() == index
  {
    [Feed, Search, Chats, Shorts, Vacancies, Music, Profile][index]
  }

  datatype RootRoute =
    | Onboarding
    | SignIn
    | SignUp
    | Tab(tab: RootTab)
    | Chat(chatId: string)
    | ChatTopic(topicChatId: string, topicId: string)
    | UserProfile(userId: string)
    | Post(postId: string)
    | Settings
  {
    /** The one stack this screen may ever be in. */
    function Slot(): PaneSlot {
      match this
      case Onboarding | SignIn | SignUp | Tab(_) => Primary
      case Chat(_) | ChatTopic(_, _) | Post(_) => Secondary
      case UserProfile(_) | Settings => Tertiary
    }
  }
}
