/** The read-only protocol registry (protocol_descriptor.hpp): type octets and body limits. */
module ProtocolRegistry {
  import opened Bytes

  const MAX_JSON_BODY: nat := 65536

  // The global cap on every row's limit; each row below is checked against it.
  type BodyLimit = n: nat | n <= MAX_JSON_BODY

  // The fields of a descriptor that the frame layer reads.
  datatype ProtocolDescriptor = ProtocolDescriptor(kind: Byte, maxBody: BodyLimit)

  // The system and connection layer.
  const SYSTEM_ROWS: seq<ProtocolDescriptor> := [
    ProtocolDescriptor(0x01, MAX_JSON_BODY),  // protocol_error
    ProtocolDescriptor(0x02, 0),  // heartbeat
    ProtocolDescriptor(0x04, MAX_JSON_BODY),  // hello_request
    ProtocolDescriptor(0x05, MAX_JSON_BODY)  // hello_response
  ]

  // Registration, login, sessions, password reset, logout and profile.
  const ACCOUNT_ROWS: seq<ProtocolDescriptor> := [
    ProtocolDescriptor(0x10, MAX_JSON_BODY),  // register_prepare_request
    ProtocolDescriptor(0x11, MAX_JSON_BODY),  // register_prepare_response
    ProtocolDescriptor(0x12, MAX_JSON_BODY),  // register_finalize_request
    ProtocolDescriptor(0x13, MAX_JSON_BODY),  // register_finalize_response
    ProtocolDescriptor(0x14, MAX_JSON_BODY),  // login_request
    ProtocolDescriptor(0x15, MAX_JSON_BODY),  // login_response
    ProtocolDescriptor(0x16, MAX_JSON_BODY),  // session_resume_request
    ProtocolDescriptor(0x17, MAX_JSON_BODY),  // session_resume_response
    ProtocolDescriptor(0x18, MAX_JSON_BODY),  // password_reset_request
    ProtocolDescriptor(0x19, MAX_JSON_BODY),  // password_reset_response
    ProtocolDescriptor(0x1A, MAX_JSON_BODY),  // logout_request
    ProtocolDescriptor(0x1B, MAX_JSON_BODY),  // logout_response
    ProtocolDescriptor(0x1C, MAX_JSON_BODY),  // profile_update_request
    ProtocolDescriptor(0x1D, MAX_JSON_BODY)  // profile_update_response
  ]

  // User lookup, friend requests and contacts.
  const CONTACT_ROWS: seq<ProtocolDescriptor> := [
    ProtocolDescriptor(0x30, MAX_JSON_BODY),  // user_lookup_request
    ProtocolDescriptor(0x31, MAX_JSON_BODY),  // user_lookup_response
    ProtocolDescriptor(0x32, MAX_JSON_BODY),  // friend_request_create_request
    ProtocolDescriptor(0x33, MAX_JSON_BODY),  // friend_request_create_response
    ProtocolDescriptor(0x34, MAX_JSON_BODY),  // friend_request_list_request
    ProtocolDescriptor(0x35, MAX_JSON_BODY),  // friend_request_list_response
    ProtocolDescriptor(0x36, MAX_JSON_BODY),  // friend_request_accept_request
    ProtocolDescriptor(0x37, MAX_JSON_BODY),  // friend_request_accept_response
    ProtocolDescriptor(0x38, MAX_JSON_BODY),  // friend_request_reject_request
    ProtocolDescriptor(0x39, MAX_JSON_BODY),  // friend_request_reject_response
    ProtocolDescriptor(0x3A, MAX_JSON_BODY),  // friend_request_withdraw_request
    ProtocolDescriptor(0x3B, MAX_JSON_BODY),  // friend_request_withdraw_response
    ProtocolDescriptor(0x3C, MAX_JSON_BODY),  // friend_delete_request
    ProtocolDescriptor(0x3D, MAX_JSON_BODY),  // friend_delete_response
    ProtocolDescriptor(0x3E, MAX_JSON_BODY),  // contact_list_request
    ProtocolDescriptor(0x3F, MAX_JSON_BODY)  // contact_list_response
  ]

  // Messages, delivery progress and conversations.
  const CONVERSATION_ROWS: seq<ProtocolDescriptor> := [
    ProtocolDescriptor(0x50, MAX_JSON_BODY),  // message_send_request
    ProtocolDescriptor(0x51, MAX_JSON_BODY),  // message_send_response
    ProtocolDescriptor(0x52, MAX_JSON_BODY),  // delivery_progress_request
    ProtocolDescriptor(0x53, MAX_JSON_BODY),  // delivery_progress_response
    ProtocolDescriptor(0x54, MAX_JSON_BODY),  // conversation_list_request
    ProtocolDescriptor(0x55, MAX_JSON_BODY),  // conversation_list_response
    ProtocolDescriptor(0x56, MAX_JSON_BODY),  // conversation_history_request
    ProtocolDescriptor(0x57, MAX_JSON_BODY),  // conversation_history_response
    ProtocolDescriptor(0x58, MAX_JSON_BODY),  // conversation_read_request
    ProtocolDescriptor(0x59, MAX_JSON_BODY),  // conversation_read_response
    ProtocolDescriptor(0x5A, MAX_JSON_BODY),  // conversation_clear_request
    ProtocolDescriptor(0x5B, MAX_JSON_BODY)  // conversation_clear_response
  ]

  // Server pushes.
  const PUSH_ROWS: seq<ProtocolDescriptor> := [
    ProtocolDescriptor(0x80, MAX_JSON_BODY),  // session_terminated_push
    ProtocolDescriptor(0x81, MAX_JSON_BODY),  // profile_updated_push
    ProtocolDescriptor(0x82, MAX_JSON_BODY),  // friend_request_received_push
    ProtocolDescriptor(0x83, MAX_JSON_BODY),  // friendship_changed_push
    ProtocolDescriptor(0x84, MAX_JSON_BODY),  // friend_request_changed_push
    ProtocolDescriptor(0x85, MAX_JSON_BODY),  // conversation_event_push
    ProtocolDescriptor(0x86, MAX_JSON_BODY),  // message_received_push
    ProtocolDescriptor(0x87, MAX_JSON_BODY)  // delivery_sync_complete_push
  ]

  // The 54 rows in the order of the table.
  const DESCRIPTORS: seq<ProtocolDescriptor> :=
    SYSTEM_ROWS + ACCOUNT_ROWS + CONTACT_ROWS + CONVERSATION_ROWS + PUSH_ROWS

  // The linear search over the table: the first descriptor of this type.
  function FindIn(table: seq<ProtocolDescriptor>, kind: Byte): Option<ProtocolDescriptor> {
    if table == [] then None
    else if table[0].kind == kind then Some(table[0])
    else FindIn(table[1..], kind)
  }

  function FindProtocol(kind: Byte): Option<ProtocolDescriptor> { FindIn(DESCRIPTORS, kind) }

  lemma {:induction false} FindInMeaning(table: seq<ProtocolDescriptor>, kind: Byte)
    ensures FindIn(table, kind).Some? <==> exists d :: d in table && d.kind == kind
    ensures FindIn(table, kind).Some? ==>
              FindIn(table, kind).value in table && FindIn(table, kind).value.kind == kind
  {
    if table == [] {
    } else {
      FindInMeaning(table[1..], kind);
      assert forall d :: d in table <==> d == table[0] || d in table[1..];
    }
  }

  // A lookup yields a registered descriptor of that very type, whose limit is at most 64 KiB.
  lemma FindProtocolMeaning(kind: Byte)
    ensures FindProtocol(kind).Some? <==> exists d :: d in DESCRIPTORS && d.kind == kind
    ensures FindProtocol(kind).Some? ==>
              FindProtocol(kind).value.kind == kind && FindProtocol(kind).value.maxBody <= MAX_JSON_BODY
  {
    FindInMeaning(DESCRIPTORS, kind);
  }

  // Consecutive types from a first one on, each with the limit of 64 KiB.
  predicate IsRunOf(table: seq<ProtocolDescriptor>, first: nat) {
    && first + |table| <= 256
    && forall i | 0 <= i < |table| :: table[i] == ProtocolDescriptor(first + i, 65536)
  }

  lemma {:induction false} FindInRun(table: seq<ProtocolDescriptor>, first: nat, kind: Byte)
    requires IsRunOf(table, first)
    ensures FindIn(table, kind) ==
            if first <= kind < first + |table| then Some(ProtocolDescriptor(kind, 65536)) else None
  {
    if table == [] {
    } else {
      FindInRun(table[1..], first + 1, kind);
    }
  }

  lemma {:induction false} FindInConcat(front: seq<ProtocolDescriptor>, back: seq<ProtocolDescriptor>, kind: Byte)
    ensures FindIn(front + back, kind) ==
            if FindIn(front, kind).Some? then FindIn(front, kind) else FindIn(back, kind)
  {
    if front == [] {
      assert front + back == back;
    } else {
      assert (front + back)[1..] == front[1..] + back;
      FindInConcat(front[1..], back, kind);
    }
  }

  lemma FindSystemRow(kind: Byte)
    ensures FindIn(SYSTEM_ROWS, kind) ==
            if kind == 0x02 then Some(ProtocolDescriptor(kind, 0))
            else if kind in {0x01, 0x04, 0x05} then Some(ProtocolDescriptor(kind, 65536))
            else None
  {
    var heartbeat := ProtocolDescriptor(0x02, 0);
    var hello := [ProtocolDescriptor(0x04, 65536), ProtocolDescriptor(0x05, 65536)];
    assert SYSTEM_ROWS == [ProtocolDescriptor(0x01, 65536)] + ([heartbeat] + hello);
    FindInConcat([ProtocolDescriptor(0x01, 65536)], [heartbeat] + hello, kind);
    FindInConcat([heartbeat], hello, kind);
    FindInRun(hello, 0x04, kind);
    FindInRun([ProtocolDescriptor(0x01, 65536)], 0x01, kind);
    assert FindIn([heartbeat], kind) == if kind == 0x02 then Some(heartbeat) else None;
  }

  // The registry, octet by octet: which types exist, and the limit of each body.
  lemma RegistryContents(kind: Byte)
    ensures FindProtocol(kind) ==
            if kind == 0x02 then Some(ProtocolDescriptor(kind, 0))
            else if || kind in {0x01, 0x04, 0x05}
                    || 0x10 <= kind <= 0x1D
                    || 0x30 <= kind <= 0x3F
                    || 0x50 <= kind <= 0x5B
                    || 0x80 <= kind <= 0x87
              then Some(ProtocolDescriptor(kind, 65536))
            else None
  {
    FindSystemRow(kind);
    FindInRun(ACCOUNT_ROWS, 0x10, kind);
    FindInRun(CONTACT_ROWS, 0x30, kind);
    FindInRun(CONVERSATION_ROWS, 0x50, kind);
    FindInRun(PUSH_ROWS, 0x80, kind);
    hide FindIn;
    FindInConcat(SYSTEM_ROWS, ACCOUNT_ROWS, kind);
    FindInConcat(SYSTEM_ROWS + ACCOUNT_ROWS, CONTACT_ROWS, kind);
    FindInConcat(SYSTEM_ROWS + ACCOUNT_ROWS + CONTACT_ROWS, CONVERSATION_ROWS, kind);
    FindInConcat(SYSTEM_ROWS + ACCOUNT_ROWS + CONTACT_ROWS + CONVERSATION_ROWS, PUSH_ROWS, kind);
  }

  lemma HeartbeatIsRegistered()
    ensures FindProtocol(0x02).Some?
  {
    assert SYSTEM_ROWS[1].kind == 0x02 && SYSTEM_ROWS[1] == DESCRIPTORS[1];
    FindInMeaning(DESCRIPTORS, 0x02);
  }
}
