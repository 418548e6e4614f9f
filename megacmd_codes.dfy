/**
 * Result codes, confirmation answers and prompt kinds shared by the server,
 * the shell and the client (src/megacmdcommonutils.h:63-94, src/megacmd.h:59-67).
 */
module MegaCmdCodes {

  const MCMD_OK: int := 0
  const MCMD_CONFIRM_NO: int := -12
  const MCMD_EARGS: int := -51
  const MCMD_INVALIDEMAIL: int := -52
  const MCMD_NOTFOUND: int := -53
  const MCMD_INVALIDSTATE: int := -54
  const MCMD_INVALIDTYPE: int := -55
  const MCMD_NOTPERMITTED: int := -56
  const MCMD_NOTLOGGEDIN: int := -57
  const MCMD_NOFETCH: int := -58
  const MCMD_EUNEXPECTED: int := -59
  const MCMD_REQCONFIRM: int := -60
  const MCMD_REQSTRING: int := -61
  const MCMD_PARTIALOUT: int := -62
  const MCMD_PARTIALERR: int := -63
  const MCMD_EXISTS: int := -64
  const MCMD_REQRESTART: int := -71

  /** The answers to a yes/no/all/none question. */
  datatype ConfirmResponse = ConfirmNo | ConfirmYes | ConfirmAll | ConfirmNone

  /** What the console is waiting for. */
  datatype PromptType =
    | Command
    | LoginPassword
    | OldPassword
    | NewPassword
    | PasswordConfirm
    | AreYouSureToDelete

  /** The text shown for a prompt kind when no other text is given. */
  function DefaultPrompt(p: PromptType): string
  {
    match p
    case Command => "MEGA CMD> "
    case LoginPassword => "Password:"
    case OldPassword => "Old Password:"
    case NewPassword => "New Password:"
    case PasswordConfirm => "Retype New Password:"
    case AreYouSureToDelete => "Are you sure to delete? "
  }
}
