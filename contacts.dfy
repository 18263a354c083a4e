/**
 * The one record type of the telephone directory and the fixed sizes of the
 * C program: how many records the global directory array holds and how wide
 * each character field of a record is (in bytes, terminator included).
 *
 * A field is modelled as the text before its terminator, so it holds no NUL
 * character (the type `Text`). Field widths appear as length bounds (see
 * Validation.ValidContact), not as padding.
 */
module Contacts {

  /** Capacity of the directory array. */
  const MAX_CONTACTS: nat := 100

  /** Widths of the `char` arrays of a record, each including the terminator. */
  const NAME_LENGTH: nat := 50
  const PHONE_LENGTH: nat := 11
  const EMAIL_LENGTH: nat := 50

  /** The characters of a C string before its terminator: no NUL among them. */
  type Text = s: string | '\0' !in s

  /** A contact record: name, phone number and e-mail address, as text. */
  datatype Contact = Contact(name: Text, phone: Text, email: Text)

  /** The all-zero record that fills the directory array before anything is stored. */
  const EMPTY_CONTACT: Contact := Contact("", "", "")

  datatype Option<T> = None | Some(value: T)

  function Min(a: nat, b: nat): nat
  {
    if a < b then a else b
  }
}
