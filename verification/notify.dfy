/**
 * The guards of `send_email_notification` and the `ENABLE_GMAIL_EMAIL` switch:
 * whether an alert would be handed to the mail server, and with what.
 */
module Notify {
  import opened Wrappers

  /** The environment variables the mailer reads; `None` is an unset variable. */
  datatype Env = Env(
    enableFlag: Option<string>,
    sender: Option<string>,
    password: Option<string>,
    recipient: Option<string>)

  /** What `send_email_notification` does with a message. */
  datatype Delivery =
    | Disabled
    | NotConfigured
    | Submit(sender: string, password: string, recipient: string, subject: string, body: string)

  /** The value used when `ENABLE_GMAIL_EMAIL` is unset. */
  const DefaultFlag: string := "False"

  /** Lower-cases an ASCII capital letter and leaves every other character alone. */
  function LowerChar(c: char): (r: char)
    ensures 'A' <= c <= 'Z' ==> 'a' <= r <= 'z' && r as int - c as int == 32
    ensures !('A' <= c <= 'Z') ==> r == c
  {
    if 'A' <= c <= 'Z' then (c as int + 32) as char else c
  }

  /** `s.lower()` on ASCII letters. */
  function Lower(s: string): (r: string)
    ensures |r| == |s|
    ensures forall i :: 0 <= i < |s| ==> r[i] == LowerChar(s[i])
  {
    seq(|s|, i requires 0 <= i < |s| => LowerChar(s[i]))
  }

  /** `os.environ.get("ENABLE_GMAIL_EMAIL", "False").lower() == "true"`. */
  function EmailEnabled(flag: Option<string>): bool {
    Lower(flag.GetOr(DefaultFlag)) == "true"
  }

  /** Python truthiness of an optional string: set and non-empty. */
  predicate Present(v: Option<string>) {
    v.Some? && v.value != ""
  }

  /** The decision `send_email_notification(subject, body)` takes before any network
      work: skip when disabled, skip when a credential is missing, otherwise submit. */
  function SendEmailNotification(env: Env, subject: string, body: string): (d: Delivery)
    ensures d == Disabled <==> !EmailEnabled(env.enableFlag)
    ensures d == NotConfigured <==>
      EmailEnabled(env.enableFlag) && !(Present(env.sender) && Present(env.password) && Present(env.recipient))
    ensures d.Submit? ==>
      && Some(d.sender) == env.sender && Some(d.password) == env.password
      && Some(d.recipient) == env.recipient
      && d.sender != "" && d.password != "" && d.recipient != ""
      && d.subject == subject && d.body == body
  {
    if !EmailEnabled(env.enableFlag) then Disabled
    else if !Present(env.sender) || !Present(env.password) || !Present(env.recipient) then NotConfigured
    else Submit(env.sender.value, env.password.value, env.recipient.value, subject, body)
  }

  /** The switch is on exactly for the four letters of "true" in any mix of case. */
  lemma EmailEnabledIff(s: string)
    ensures EmailEnabled(Some(s)) <==>
      && |s| == 4
      && (s[0] == 't' || s[0] == 'T')
      && (s[1] == 'r' || s[1] == 'R')
      && (s[2] == 'u' || s[2] == 'U')
      && (s[3] == 'e' || s[3] == 'E')
  {
    var l := Lower(s);
    if |s| == 4 {
      assert l == [LowerChar(s[0]), LowerChar(s[1]), LowerChar(s[2]), LowerChar(s[3])];
    }
  }

  /** With the variable unset, or set to its default, e-mail is off. */
  lemma DisabledByDefault()
    ensures !EmailEnabled(None)
    ensures !EmailEnabled(Some(DefaultFlag))
  {
    EmailEnabledIff(DefaultFlag);
  }
}
