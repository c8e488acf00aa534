/** Records shared by the services and the pages (lib/types/types.ts). */
module Types {
  import opened Common

  /** A row of `clients`. */
  datatype Client = Client(
    id: string,
    userId: string,
    name: string,
    email: string,
    phone: Option<string>,
    notes: Option<string>,
    createdAt: string,
    updatedAt: string)

  /** The outcome of sending to one recipient: `{email, success, id?}` on
      success, `{email, success: false, error}` on failure. The shape
      follows the objects services/gmail.ts returns. */
  datatype SendResult = SendResult(email: string, success: bool, error: Option<string>, id: Option<string>)
}
