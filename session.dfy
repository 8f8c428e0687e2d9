/** The per-user dialogue state (which input the bot is waiting for), the command permission
    check and the validation of the configuration. */
module Session {
  import opened Text

  // ---------------------------------------------------------------- dialogue state

  const AwaitKeyword := "add_keyword"
  const AwaitSubscription := "add_subscription"

  /** The state of one user: the input the bot waits for and the message it was asked in.
      The extra data map of the source is always empty and is not modelled. */
  datatype UserState = UserState(action: string, messageID: int)

  /** The actions the bot ever stores. */
  predicate KnownAction(action: string) {
    action == AwaitKeyword || action == AwaitSubscription
  }

  /** Every stored state waits for keywords or for a subscription. */
  predicate Known(states: map<int, UserState>) {
    forall u :: u in states ==> KnownAction(states[u].action)
  }

  /** The states after a user presses an inline button: the two "add" buttons start waiting
      for input (the state is cleared first unless the button is one of them, and then set);
      every other button drops the user's state. Other users are not affected. */
  function AfterButton(states: map<int, UserState>, userID: int, messageID: int, data: string)
    : (r: map<int, UserState>)
    ensures forall u :: u != userID ==> (u in r <==> u in states) && (u in r ==> r[u] == states[u])
    ensures KnownAction(data) ==> userID in r && r[userID] == UserState(data, messageID)
    ensures !KnownAction(data) ==> userID !in r
  {
    if KnownAction(data) then states[userID := UserState(data, messageID)]
    else states - {userID}
  }

  /** What a plain text message is routed to: keyword input, subscription input, the
      default hint, or the unknown-state branch. */
  datatype Route = KeywordInput | SubscriptionInput | DefaultReply | UnknownState

  /** The phrases of the two prompts that a stateless reply is recognised by. */
  const KeywordPrompt := "请输入要添加的关键词"
  const SubscriptionPrompt := "请按以下格式输入RSS订阅信息"

  /** handleMessage without a state: a reply to a message containing one of the prompts is
      taken as that input (keywords first); anything else gets the default hint. */
  function ReplyRoute(replyTo: Option<string>): Route {
    if replyTo.None? then DefaultReply
    else if Contains(replyTo.value, KeywordPrompt) then KeywordInput
    else if Contains(replyTo.value, SubscriptionPrompt) then SubscriptionInput
    else DefaultReply
  }

  /** handleMessage and handleStateMessage for a message that is not a command: with a state,
      the text is input for it and an unrecognised state is cleared; without one, the text of
      the message replied to, if any, decides. */
  function RouteOf(states: map<int, UserState>, userID: int, replyTo: Option<string>): Route {
    if userID !in states then ReplyRoute(replyTo)
    else if states[userID].action == AwaitKeyword then KeywordInput
    else if states[userID].action == AwaitSubscription then SubscriptionInput
    else UnknownState
  }

  /** The userStates map with its operations. */
  class Sessions {
    var states: map<int, UserState>

    constructor()
      ensures states == map[]
    {
      states := map[];
    }

    /** setUserState */
    method SetUserState(userID: int, action: string, messageID: int)
      modifies this
      ensures states == old(states)[userID := UserState(action, messageID)]
    {
      states := states[userID := UserState(action, messageID)];
    }

    /** getUserState: the user's state, or none. */
    method GetUserState(userID: int) returns (s: Option<UserState>)
      ensures s.Some? <==> userID in states
      ensures s.Some? ==> s.value == states[userID]
    {
      if userID in states {
        s := Some(states[userID]);
      } else {
        s := None;
      }
    }

    /** clearUserState */
    method ClearUserState(userID: int)
      modifies this
      ensures states == old(states) - {userID}
    {
      states := states - {userID};
    }

    /** The state changes of handleCallbackQuery: the clearing rule, then the prompt of the
        two "add" buttons, which records the state the answer is expected in. */
    method PressButton(userID: int, messageID: int, data: string)
      modifies this
      ensures states == AfterButton(old(states), userID, messageID, data)
    {
      if data != "add_keyword" && data != "add_subscription" {
        ClearUserState(userID);
      }
      if data == "add_keyword" {
        SetUserState(userID, AwaitKeyword, messageID);
      } else if data == "add_subscription" {
        SetUserState(userID, AwaitSubscription, messageID);
      }
    }

    /** The routing of handleMessage for a message that is not a command, with the state
        change of handleStateMessage: an unrecognised state is cleared. */
    method RouteText(userID: int, replyTo: Option<string>) returns (route: Route)
      modifies this
      ensures route == RouteOf(old(states), userID, replyTo)
      ensures states == if route == UnknownState then old(states) - {userID} else old(states)
    {
      var s := GetUserState(userID);
      if s.None? {
        if replyTo.Some? && Contains(replyTo.value, KeywordPrompt) {
          return KeywordInput;
        } else if replyTo.Some? && Contains(replyTo.value, SubscriptionPrompt) {
          return SubscriptionInput;
        }
        return DefaultReply;
      }
      if s.value.action == AwaitKeyword {
        route := KeywordInput;
      } else if s.value.action == AwaitSubscription {
        route := SubscriptionInput;
      } else {
        ClearUserState(userID);
        route := UnknownState;
      }
    }

    /** handleCommand's effect on the state: "/start" from a permitted user clears it.
        Returns whether the command was permitted. */
    method HandleCommand(userID: int, adminID: int, command: string) returns (allowed: bool)
      modifies this
      ensures allowed == CommandAllowed(userID, adminID)
      ensures states == if allowed && command == "start" then old(states) - {userID} else old(states)
    {
      allowed := CommandAllowed(userID, adminID);
      if allowed && command == "start" {
        ClearUserState(userID);
      }
    }
  }

  /** Pressing buttons only ever stores the two known actions. */
  lemma AfterButtonKnown(states: map<int, UserState>, userID: int, messageID: int, data: string)
    requires Known(states)
    ensures Known(AfterButton(states, userID, messageID, data))
  {
  }

  /** Clearing a state keeps the stored actions known. */
  lemma ClearKnown(states: map<int, UserState>, userID: int)
    requires Known(states)
    ensures Known(states - {userID})
  {
  }

  /** While only buttons set states, a text message is never routed to the unknown-state
      branch. */
  lemma KnownRoutes(states: map<int, UserState>, userID: int, replyTo: Option<string>)
    requires Known(states)
    ensures RouteOf(states, userID, replyTo) != UnknownState
  {
  }

  /** A stateless message is keyword input exactly when it replies to a text with the keyword
      prompt, subscription input exactly when it replies to a text with the subscription
      prompt and not the keyword one, and gets the default hint otherwise. */
  lemma ReplyRouteMeaning(replyTo: Option<string>)
    ensures ReplyRoute(replyTo) == KeywordInput <==>
      replyTo.Some? && Contains(replyTo.value, KeywordPrompt)
    ensures ReplyRoute(replyTo) == SubscriptionInput <==>
      replyTo.Some? && !Contains(replyTo.value, KeywordPrompt) && Contains(replyTo.value, SubscriptionPrompt)
    ensures ReplyRoute(replyTo) == DefaultReply <==>
      replyTo.None? || (!Contains(replyTo.value, KeywordPrompt) && !Contains(replyTo.value, SubscriptionPrompt))
  {
  }

  /** After a button press, text is keyword (subscription) input exactly when the button was
      "add_keyword" ("add_subscription"); after any other button the state is gone and the
      message is routed as a stateless one, by the text it replies to. */
  lemma RouteAfterButton(states: map<int, UserState>, userID: int, messageID: int, data: string,
                         replyTo: Option<string>)
    ensures var r := RouteOf(AfterButton(states, userID, messageID, data), userID, replyTo);
      && (data == AwaitKeyword ==> r == KeywordInput)
      && (data == AwaitSubscription ==> r == SubscriptionInput)
      && (!KnownAction(data) ==> r == ReplyRoute(replyTo))
  {
  }

  // ---------------------------------------------------------------- permission

  /** handleCommand's check: the administrator may always use commands, and everyone may
      when no administrator is configured (ADMINIDS is 0). */
  predicate CommandAllowed(userID: int, adminID: int) {
    userID == adminID || adminID == 0
  }

  /** With an administrator configured, exactly the administrator may use commands; without
      one, everybody may. */
  lemma CommandAllowedMeaning(userID: int, adminID: int)
    ensures adminID == 0 ==> CommandAllowed(userID, adminID)
    ensures adminID != 0 ==> (CommandAllowed(userID, adminID) <==> userID == adminID)
  {
  }

  // ---------------------------------------------------------------- configuration

  const DefaultCycleTime := 300

  datatype Config = Config(botToken: string, adminIDs: int, cycletime: int, debug: bool,
                           proxyURL: string, pushinfo: string)

  /** What reading config.json gave: the file could not be opened, its JSON could not be
      decoded, or the decoded configuration. */
  datatype ConfigSource = OpenFailed(openError: string) | DecodeFailed(decodeError: string) | Decoded(config: Config)

  /** loadConfig */
  function LoadConfig(src: ConfigSource): (r: Result<Config>)
    ensures r.Ok? ==> r.value.botToken != [] && r.value.cycletime > 0
  {
    match src
    case OpenFailed(e) => Err("打开配置文件失败: " + e)
    case DecodeFailed(e) => Err("解析配置文件失败: " + e)
    case Decoded(c) =>
      if c.botToken == "" then Err("BotToken不能为空")
      else if c.cycletime <= 0 then Ok(c.(cycletime := DefaultCycleTime))
      else Ok(c)
  }

  /** A configuration loads exactly when it was decoded and has a bot token; loading changes
      only a cycle time that is not positive, to 300 (minutes, as the monitor timer reads it). */
  lemma LoadConfigMeaning(src: ConfigSource)
    ensures LoadConfig(src).Ok? <==> src.Decoded? && src.config.botToken != []
    ensures LoadConfig(src).Ok? ==>
      var c := LoadConfig(src).value;
      && c.(cycletime := src.config.cycletime) == src.config
      && (src.config.cycletime > 0 ==> c.cycletime == src.config.cycletime)
      && (src.config.cycletime <= 0 ==> c.cycletime == DefaultCycleTime)
  {
  }

  /** Loading a loaded configuration again changes nothing. */
  lemma LoadConfigIdempotent(src: ConfigSource)
    requires LoadConfig(src).Ok?
    ensures LoadConfig(Decoded(LoadConfig(src).value)) == LoadConfig(src)
  {
  }
}
