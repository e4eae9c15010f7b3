/** The lifecycle states of a message (src/status.py, and the identical enum
    at the top of src/email_models.py). */
module Statuses {

  datatype Status = Draft | Ready | Sent | Failed | Invalid
}
